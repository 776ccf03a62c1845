/** The signal table of a `SignalManager` as a value: signal name to the
    ordered list of connected actions. Each operation the two copies of the
    manager share is a function of the table before: registering and removing
    names give the table after, connecting and disconnecting also give the
    exception that escapes, and emitting gives the results or the exception.
    Both copies are specified by these functions, so the properties below are
    proved once. */
module Registry {
  import opened Signals

  type Table<A> = map<string, seq<A>>

  /** The actions connected to `name`, or none if it is not registered. */
  function ActionsOf<A>(m: Table<A>, name: string): seq<A>
  {
    if name in m then m[name] else []
  }

  /** `add_signals(names)`: every name not yet present gets an empty action
      list; names already present, and all other entries, keep what they had. */
  function AddAll<A>(m: Table<A>, names: seq<string>): (r: Table<A>)
    ensures r.Keys == m.Keys + set n | n in names
    ensures forall n :: n in m ==> r[n] == m[n]
    ensures forall n :: n in r && n !in m ==> r[n] == []
    decreases |names|
  {
    if names == [] then m
    else
      var front := names[..|names| - 1];
      var name := names[|names| - 1];
      assert (set n | n in names) == (set n | n in front) + {name} by {
        assert names == front + [name];
      }
      var r0 := AddAll(m, front);
      if name in r0 then r0 else r0[name := []]
  }

  /** `remove_signals(names)`: every listed name is gone, absent names are
      accepted, and every other entry is untouched. */
  function RemoveAll<A>(m: Table<A>, names: seq<string>): (r: Table<A>)
    ensures r.Keys == m.Keys - set n | n in names
    ensures forall n :: n in r ==> r[n] == m[n]
    decreases |names|
  {
    if names == [] then m
    else
      var front := names[..|names| - 1];
      var name := names[|names| - 1];
      assert (set n | n in names) == (set n | n in front) + {name} by {
        assert names == front + [name];
      }
      RemoveAll(m, front) - {name}
  }

  /** The table after an operation, and the exception it raised if any. */
  datatype Step<A> = Step(table: Table<A>, raised: Option<Exception>)

  /** `connect_to_signal(name, action)`: an unknown name is registered first;
      then `assert callable(action)`; then the action is appended. A
      non-callable action raises AssertionError with the name registered but
      its action list unchanged. */
  function Connect<A>(m: Table<A>, name: string, action: A, isCallable: bool): (r: Step<A>)
    ensures name in r.table
    ensures r.table[name] == ActionsOf(m, name) + (if isCallable then [action] else [])
    ensures r.table.Keys == m.Keys + {name}
    ensures forall n :: n in m && n != name ==> r.table[n] == m[n]
    ensures r.raised.Some? <==> !isCallable
    ensures r.raised.Some? ==> r.raised.value == AssertionError
  {
    var t := if name in m then m else AddAll(m, [name]);
    if isCallable then Step(t[name := t[name] + [action]], None)
    else Step(t, Some(AssertionError))
  }

  /** `disconnect_from_signal(name, action)`: the KeyError of an unknown name
      is caught (a warning only); otherwise `list.remove` drops the first
      occurrence, and its ValueError for an absent action is not caught. */
  function Disconnect<A(==)>(m: Table<A>, name: string, action: A): (r: Step<A>)
    ensures name !in m ==> r == Step(m, None)
    ensures name in m && action !in m[name] ==> r == Step(m, Some(ValueError))
    ensures name in m && action in m[name] ==>
              && r.raised == None
              && r.table.Keys == m.Keys
              && |r.table[name]| == |m[name]| - 1
              && forall n :: n in m && n != name ==> r.table[n] == m[n]
  {
    if name !in m then Step(m, None)
    else
      match ListRemove(m[name], action)
      case Returned(s) => Step(m[name := s], None)
      case Raised(e) => Step(m, Some(e))
  }

  /** `emit_signal(name, **data)`: the lookup and the loop share one
      `try ... except KeyError`, so an unknown name and an action raising
      KeyError both end in the results collected so far; any other exception
      escapes. */
  function Emit<A, D, R>(m: Table<A>, name: string, call: (A, D) -> Outcome<R>, data: D): (r: Outcome<seq<R>>)
    ensures name !in m ==> r == Returned([])
    ensures r.Returned? ==> |r.value| <= |ActionsOf(m, name)|
    ensures r.Raised? ==> r.error != KeyError
  {
    if name !in m then Returned([])
    else
      var run := RunActions(m[name], call, data);
      match run.stopped
      case None => Returned(run.results)
      case Some(KeyError) => Returned(run.results)
      case Some(e) => Raised(e)
  }

  // ---------------------------------------------------------------------
  // Properties of the operations

  /** Registering names twice is the same as registering them once. */
  lemma AddAllIdempotent<A>(m: Table<A>, names: seq<string>)
    ensures AddAll(AddAll(m, names), names) == AddAll(m, names)
  {
  }

  /** Removing names just registered from names that were absent gives back
      the original table. */
  lemma RemoveUndoesAdd<A>(m: Table<A>, names: seq<string>)
    requires forall n :: n in names ==> n !in m
    ensures RemoveAll(AddAll(m, names), names) == m
  {
  }

  /** Disconnecting an action just connected to a registered signal that did
      not hold it gives back the original table. */
  lemma DisconnectUndoesConnect<A>(m: Table<A>, name: string, action: A)
    requires name in m && action !in m[name]
    ensures Disconnect(Connect(m, name, action, true).table, name, action) == Step(m, None)
  {
    var t := Connect(m, name, action, true).table;
    assert t[name] == m[name] + [action];
    ListRemoveFirstOccurrence(t[name], action, |m[name]|);
    assert t[name][..|m[name]|] + t[name][|m[name]| + 1..] == m[name];
    assert t[name := m[name]] == m;
  }

  /** Disconnect takes out exactly the first occurrence of the action and
      keeps the others, in order. */
  lemma DisconnectRemovesFirst<A>(m: Table<A>, name: string, action: A, i: nat)
    requires name in m && i < |m[name]| && m[name][i] == action
    requires forall j :: 0 <= j < i ==> m[name][j] != action
    ensures Disconnect(m, name, action) == Step(m[name := m[name][..i] + m[name][i + 1..]], None)
  {
    ListRemoveFirstOccurrence(m[name], action, i);
  }

  /** Connecting the same action twice and disconnecting it once leaves one
      connection; disconnecting it a second time removes the last one; a
      third attempt raises ValueError, because only KeyError is caught. */
  lemma DisconnectTwice<A>(m: Table<A>, name: string, action: A)
    requires name !in m
    ensures var once := Connect(m, name, action, true).table;
            var twice := Connect(once, name, action, true).table;
            var d1 := Disconnect(twice, name, action);
            var d2 := Disconnect(d1.table, name, action);
            && d1 == Step(twice[name := [action]], None)
            && d2 == Step(twice[name := []], None)
            && Disconnect(d2.table, name, action) == Step(d2.table, Some(ValueError))
  {
  }

  /** Emitting a registered signal: if the first `k` actions return and
      action `k` raises (or there is none), the emission returns exactly the
      first `k` results in registration order when the loop ran out or action
      `k` raised KeyError, and otherwise raises action `k`'s exception. */
  lemma EmitCatchesOnlyKeyError<A, D, R>(m: Table<A>, name: string, call: (A, D) -> Outcome<R>, data: D, k: nat)
    requires name in m && k <= |m[name]|
    requires forall i :: 0 <= i < k ==> call(m[name][i], data).Returned?
    requires k < |m[name]| ==> call(m[name][k], data).Raised?
    ensures var r := Emit(m, name, call, data);
            && (r.Returned? <==> k == |m[name]| || call(m[name][k], data).error == KeyError)
            && (r.Returned? ==> |r.value| == k && forall i :: 0 <= i < k ==> r.value[i] == call(m[name][i], data).value)
            && (r.Raised? ==> r.error == call(m[name][k], data).error)
  {
    RunActionsStopsAt(m[name], call, data, k);
  }

  /** When every action returns, emitting yields one result per connected
      action, aligned with the action list. */
  lemma EmitAllReturn<A, D, R>(m: Table<A>, name: string, call: (A, D) -> Outcome<R>, data: D)
    requires name in m
    requires forall i :: 0 <= i < |m[name]| ==> call(m[name][i], data).Returned?
    ensures Emit(m, name, call, data).Returned?
    ensures |Emit(m, name, call, data).value| == |m[name]|
    ensures forall i :: 0 <= i < |m[name]| ==> Emit(m, name, call, data).value[i] == call(m[name][i], data).value
  {
    EmitCatchesOnlyKeyError(m, name, call, data, |m[name]|);
  }

  /** Connecting an action to a signal whose actions all return makes the
      next emission call it once, after all the others: its result comes last
      (or, if it raises, the others' results stand or its exception escapes). */
  lemma EmitAfterConnect<A, D, R>(m: Table<A>, name: string, action: A, call: (A, D) -> Outcome<R>, data: D)
    requires forall i :: 0 <= i < |ActionsOf(m, name)| ==> call(ActionsOf(m, name)[i], data).Returned?
    ensures var before := RunActions(ActionsOf(m, name), call, data).results;
            Emit(Connect(m, name, action, true).table, name, call, data)
              == match call(action, data)
                 case Returned(v) => Returned(before + [v])
                 case Raised(KeyError) => Returned(before)
                 case Raised(e) => Raised(e)
  {
    var t := Connect(m, name, action, true).table;
    var before := ActionsOf(m, name);
    assert t[name] == before + [action];
    RunActionsAppend(before, [action], call, data);
    var last := RunActions([action], call, data);
    assert [action][1..] == [];
    match call(action, data)
    case Returned(v) =>
      assert last == Run([v], None);
    case Raised(e) =>
      assert last == Run([], Some(e));
      assert RunActions(before, call, data).results + [] == RunActions(before, call, data).results;
  }

  /** Connecting the same action twice to a new signal makes an emission call
      it twice: two equal results. */
  lemma ConnectTwiceCallsTwice<A, D, R>(m: Table<A>, name: string, action: A, call: (A, D) -> Outcome<R>, data: D)
    requires name !in m && call(action, data).Returned?
    ensures var once := Connect(m, name, action, true).table;
            var twice := Connect(once, name, action, true).table;
            Emit(twice, name, call, data) == Returned([call(action, data).value, call(action, data).value])
  {
    var once := Connect(m, name, action, true).table;
    var v := call(action, data).value;
    assert ActionsOf(once, name) == [action];
    assert RunActions([action], call, data).results == [v] by {
      assert [action][1..] == [];
    }
    EmitAfterConnect(once, name, action, call, data);
    assert call(action, data) == Returned(v);
    assert [v] + [v] == [v, v];
  }

  /** Emitting never registers: an unknown name stays unknown and yields no
      results, also after the name was removed (alone or with all others). */
  lemma EmitAfterRemove<A, D, R>(m: Table<A>, names: seq<string>, name: string, call: (A, D) -> Outcome<R>, data: D)
    requires name in names
    ensures Emit(RemoveAll(m, names), name, call, data) == Returned([])
    ensures Emit(map[], name, call, data) == Returned([])
  {
  }

  /** Registering a name, connecting `f`, removing it and connecting `g`
      leaves the name with `g` alone. */
  lemma ReRegisterStartsEmpty<A>(m: Table<A>, name: string, f: A, g: A)
    ensures var t1 := AddAll(m, [name]);
            var t2 := Connect(t1, name, f, true).table;
            var t3 := RemoveAll(t2, [name]);
            Connect(t3, name, g, true).table[name] == [g]
  {
  }

  /** Two handlers returning true and false give [true, false], in the order
      they were connected. */
  lemma TwoHandlersInOrder<A, D>(m: Table<A>, name: string, h1: A, h2: A, call: (A, D) -> Outcome<bool>, data: D)
    requires name !in m
    requires call(h1, data) == Returned(true) && call(h2, data) == Returned(false)
    ensures var t := Connect(Connect(m, name, h1, true).table, name, h2, true).table;
            Emit(t, name, call, data) == Returned([true, false])
  {
    var once := Connect(m, name, h1, true).table;
    assert ActionsOf(once, name) == [h1];
    assert RunActions([h1], call, data).results == [true] by {
      assert [h1][1..] == [];
    }
    EmitAfterConnect(once, name, h2, call, data);
    assert [true] + [false] == [true, false];
  }
}
