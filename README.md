# Simbuto signal bus and path splitting, modelled in Dafny

Simbuto is a desktop budgeting application. Its user interface and its
backend talk through a signal manager: a registry from signal names to the
ordered list of actions connected to each. Callers connect actions to a name,
disconnect them, and emit the name with keyword data. Emitting calls every
connected action in order and collects the return values. The repository has
two copies of the manager. The copy in `lib/` is plain. The copy in `usr/` is
a thread that also creates a `threading.Event` for every registered name and
can hand out that event's `wait`. A small helper, `splitpath`, splits a file
path into its components.

The project models:

- `signals.dfy` (module `Signals`): the exceptions the manager tells apart,
  `list.remove`, and the loop that calls the actions.
- `registry.dfy` (module `Registry`): the effect of each shared manager
  operation on the table of action lists, as a function. `AddAll` and
  `RemoveAll` give the new table. `Connect` and `Disconnect` give the new
  table and the exception that escapes, if any. `Emit` gives the results or
  the exception, and leaves the table alone. Both copies are specified by
  these functions, and the properties of the bus are proved here.
  `get_wait_for_signal_callback` exists only in the `usr/` copy and is
  specified in its class.
- `plain_signal_manager.dfy` (module `PlainSignalManager`): the `lib/` class.
  Its field is a `map<string, seq<A>>` that its methods update in place.
- `threaded_signal_manager.dfy` (module `ThreadedSignalManager`): the `usr/`
  class. Each record holds an `Event` object and the action list.
  `Actions(signals)` projects the records onto the same table.
- `path_utils.dfy` (module `PathUtils`): POSIX `os.path.split` as a function,
  and `splitpath` as a loop. The loop is proved equal to `Components`, the
  non-empty `/`-separated pieces of the path.

Actions have any type `A` with equality, as `list.remove` compares with `==`.
Two things come from outside the bus and are given as parameters:

- `callable: A -> bool` is Python's `callable()`.
- `call: (A, D) -> Outcome<R>` is what calling an action with the emitted
  data does: it returns a value or raises.

Three behaviours of the code a reader might not expect, which the model
follows:

- In `emit_signal`, the `try ... except KeyError` covers the action loop as
  well as the lookup. So an action that raises `KeyError` ends the emission
  quietly, with the results collected so far. Any other exception escapes.
- `disconnect_from_signal` on a registered name whose list lacks the action
  raises the `ValueError` of `list.remove`. Only `KeyError` (unknown name) is
  caught and turned into a warning.
- `connect_to_signal` with a non-callable action registers an unknown name
  before its `assert callable(action)` fails. The `AssertionError` escapes,
  the name stays registered, and its action list is unchanged.

## Model

| member | source | states |
|---|---|---|
| Signals.ListRemove | lib/simbuto/python/simbuto/signalmanager.py:84 | `list.remove` raises exactly when the action is absent, and the error is ValueError; otherwise the list is one shorter |
| Signals.ListRemoveFirstOccurrence | lib/simbuto/python/simbuto/signalmanager.py:84 | `list.remove` deletes exactly the first occurrence and keeps everything before and after it in order |
| Signals.RunActions | lib/simbuto/python/simbuto/signalmanager.py:103-107 | the action loop never collects more results than there are actions, and one result per action when none raises |
| Signals.RunActionsStopsAt | lib/simbuto/python/simbuto/signalmanager.py:98-110 | with the first k actions returning and action k raising (or absent): exactly the first k results, in registration order, then action k's exception |
| Signals.RunActionsAppend | lib/simbuto/python/simbuto/signalmanager.py:103-107 | actions connected later run after all earlier ones, whose results come first |
| Signals.CallEach | lib/simbuto/python/simbuto/signalmanager.py:103-107 | the `for` loop calls the actions in order with the same data and stops at the first exception; it computes RunActions |
| Registry.AddAll | lib/simbuto/python/simbuto/signalmanager.py:34-39 | registered names are the old ones plus the listed ones; existing names keep their actions; each new name gets an empty list |
| Registry.RemoveAll | lib/simbuto/python/simbuto/signalmanager.py:47-48 | listed names are gone, absent names are accepted, other entries are untouched |
| Registry.Connect | lib/simbuto/python/simbuto/signalmanager.py:64-72 | the name is registered afterwards; the action is appended at the end (duplicates allowed) when callable; otherwise AssertionError with the list unchanged; other signals unchanged |
| Registry.Disconnect | lib/simbuto/python/simbuto/signalmanager.py:83-89 | unknown name: no change and no exception; action absent: ValueError and no change; otherwise one fewer action and other signals unchanged |
| Registry.Emit | lib/simbuto/python/simbuto/signalmanager.py:97-111 | unknown name: `[]`; never more results than actions; a KeyError never escapes |
| Registry.AddAllIdempotent | lib/simbuto/python/simbuto/signalmanager.py:34-36 | registering the same names twice is the same as registering them once |
| Registry.RemoveUndoesAdd | lib/simbuto/python/simbuto/signalmanager.py:34-48 | removing names just registered from absent names gives back the original table |
| Registry.DisconnectUndoesConnect | lib/simbuto/python/simbuto/signalmanager.py:64-89 | disconnecting an action just connected to a signal that lacked it restores the table, without exception |
| Registry.DisconnectRemovesFirst | lib/simbuto/python/simbuto/signalmanager.py:83-84 | disconnect removes exactly the first occurrence of the action |
| Registry.DisconnectTwice | lib/simbuto/python/simbuto/signalmanager.py:83-89 | on a new name, an action connected twice needs two disconnects; a third raises ValueError |
| Registry.EmitCatchesOnlyKeyError | lib/simbuto/python/simbuto/signalmanager.py:98-110 | emission returns the first k results exactly when the actions ran out or action k raised KeyError; otherwise action k's exception escapes |
| Registry.EmitAllReturn | lib/simbuto/python/simbuto/signalmanager.py:103-107 | when all actions return, the results have the same length and order as the actions |
| Registry.EmitAfterConnect | lib/simbuto/python/simbuto/signalmanager.py:64-107 | when the earlier actions all return, a newly connected action is called once, after them: its value comes last, its KeyError leaves the earlier results, and any other exception of it escapes |
| Registry.ConnectTwiceCallsTwice | lib/simbuto/python/simbuto/signalmanager.py:64-107 | on a new name, connecting an action that returns twice makes an emission call it twice: two equal results |
| Registry.EmitAfterRemove | lib/simbuto/python/simbuto/signalmanager.py:97-111 | emitting a removed name, or any name after removing all signals, returns `[]` |
| Registry.ReRegisterStartsEmpty | lib/simbuto/python/simbuto/signalmanager.py:34-72 | add, connect f, remove, connect g leaves the name with g alone |
| Registry.TwoHandlersInOrder | lib/simbuto/python/simbuto/signalmanager.py:103-107 | on a new name, handlers returning true and then false give `[true, false]` |
| PlainSignalManager.SignalManager.constructor | lib/simbuto/python/simbuto/signalmanager.py:10-11 | a new manager has no signals |
| PlainSignalManager.SignalManager.SetSignals | lib/simbuto/python/simbuto/signalmanager.py:23-26 | the setter replaces the whole registry |
| PlainSignalManager.SignalManager.AddSignals | lib/simbuto/python/simbuto/signalmanager.py:29-40 | the loop leaves the registry equal to AddAll of the old one |
| PlainSignalManager.SignalManager.RemoveSignals | lib/simbuto/python/simbuto/signalmanager.py:42-49 | the loop leaves the registry equal to RemoveAll of the old one |
| PlainSignalManager.SignalManager.RemoveAllSignals | lib/simbuto/python/simbuto/signalmanager.py:51-55 | the registry is empty afterwards |
| PlainSignalManager.SignalManager.ConnectToSignal | lib/simbuto/python/simbuto/signalmanager.py:57-74 | the new registry and the escaping exception are those of Connect |
| PlainSignalManager.SignalManager.DisconnectFromSignal | lib/simbuto/python/simbuto/signalmanager.py:76-89 | the new registry and the escaping exception are those of Disconnect |
| PlainSignalManager.SignalManager.EmitSignal | lib/simbuto/python/simbuto/signalmanager.py:91-111 | the registry is unchanged and the outcome is that of Emit |
| ThreadedSignalManager.Event.constructor | usr/lib/simbuto/python/simbuto/signalmanager.py:51 | a new Event is a new object whose flag is unset |
| ThreadedSignalManager.SignalManager.constructor | usr/lib/simbuto/python/simbuto/signalmanager.py:8-9 | a new manager has no signals |
| ThreadedSignalManager.SignalManager.SetSignals | usr/lib/simbuto/python/simbuto/signalmanager.py:37-40 | the setter replaces the whole registry |
| ThreadedSignalManager.SignalManager.AddSignals | usr/lib/simbuto/python/simbuto/signalmanager.py:43-56 | actions as AddAll; existing names keep their whole record, event included; each new name gets a new, unset Event distinct from every other signal's |
| ThreadedSignalManager.SignalManager.RemoveSignals | usr/lib/simbuto/python/simbuto/signalmanager.py:58-65 | actions as RemoveAll; the remaining records are unchanged |
| ThreadedSignalManager.SignalManager.RemoveAllSignals | usr/lib/simbuto/python/simbuto/signalmanager.py:67-71 | the registry is empty afterwards |
| ThreadedSignalManager.SignalManager.ConnectToSignal | usr/lib/simbuto/python/simbuto/signalmanager.py:73-90 | actions and exception as Connect; existing events kept; an unknown name gets a new, unset Event |
| ThreadedSignalManager.SignalManager.DisconnectFromSignal | usr/lib/simbuto/python/simbuto/signalmanager.py:92-105 | actions and exception as Disconnect; names and events unchanged |
| ThreadedSignalManager.SignalManager.EmitSignal | usr/lib/simbuto/python/simbuto/signalmanager.py:107-130 | the outcome is that of Emit; nothing changes, Events included, as the set and clear calls are commented out |
| ThreadedSignalManager.SignalManager.GetWaitForSignalCallback | usr/lib/simbuto/python/simbuto/signalmanager.py:133-147 | the signal's own Event for a registered name; None for an unknown name, which stays unknown |
| ThreadedSignalManager.ReRegister | usr/lib/simbuto/python/simbuto/signalmanager.py:48-64 | after removing and re-adding a name it has no actions and an Event different from the old one |
| PathUtils.LastSepEnd | usr/lib/simbuto/python/simbuto/utils.py:10 | the cut point of `os.path.split`: just after a '/', with no '/' beyond it |
| PathUtils.RStripSlashes | usr/lib/simbuto/python/simbuto/utils.py:10 | `head.rstrip('/')` inside `os.path.split`: a prefix of its input, not ending in '/', and only slashes were removed |
| PathUtils.Split | usr/lib/simbuto/python/simbuto/utils.py:10 | POSIX `os.path.split`: the path is the head, then only slashes, then the tail; the tail holds no '/' and is preceded by a '/' unless it is the whole path; the head is all slashes, and then it keeps every slash before the tail, or does not end in '/' |
| PathUtils.Reverse | usr/lib/simbuto/python/simbuto/utils.py:16 | `res.reverse()`: element i of the result is element n-1-i of the input |
| PathUtils.SplitFixedPoint | usr/lib/simbuto/python/simbuto/utils.py:10-12 | the head equals the path exactly when the path is empty or only slashes; otherwise the head is strictly shorter, so the loop terminates |
| PathUtils.Components | usr/lib/simbuto/python/simbuto/utils.py:6-17 | the reference result: no component is empty and none holds '/' |
| PathUtils.SplitStep | usr/lib/simbuto/python/simbuto/utils.py:10-15 | one loop turn on a path not made of slashes only: the path's components are the head's followed by the non-empty tail, so the first tail found is the last component |
| PathUtils.SplitPath | usr/lib/simbuto/python/simbuto/utils.py:6-17 | `splitpath` returns exactly Components(path), root to leaf, with no empty component and no '/' |
| PathUtils.ComponentsIgnoreLeadingSlash | usr/lib/simbuto/python/simbuto/utils.py:10-16 | a leading '/' leaves no trace in the result |
| PathUtils.Examples | usr/lib/simbuto/python/simbuto/utils.py:10-16 | `""` and `"/"` give `[]`; `"/a/b"` and `"a/b"` both give `["a", "b"]` |

## Left out

- Threading: the `usr/` manager is a `threading.Thread` that is started as a daemon in `__init__`. The model has no thread. `Event.wait` is represented by the Event it belongs to; its blocking is not modelled.
- Registry.Connect: assumes Python runs with assertions enabled. Under `python -O` the `assert callable(action)` is removed, a non-callable action is appended and nothing is raised; that mode is not modelled.
- Logging: every `logger.debug` and `logger.warning` call, and the `logger` property of the `usr/` class.
- The `signals` getter is the field itself. Its fallback to a fresh `{}` on `AttributeError` cannot happen once `__init__` has run, so it is not modelled.
- Records are typed. A dict assigned through the setter whose records lack `"actions"` or `"event"` (which would make Python raise `KeyError` inside the manager) cannot be expressed.
- Aliasing: the registry and the action lists are values. A caller holding the dict returned by the getter, or one list shared by two records, is not modelled.
- Actions that re-enter the bus during `emit_signal` are not modelled. `call` is a pure function of the action and the data.
- The `**data` keyword payload is one value of a type `D`. No per-signal schema is modelled.
- `splitpath` assumes POSIX `os.path.split` on `str`. The Windows variant and bytes paths are not modelled.
- The rest of the application is not part of this model: the GTK interface, the file manager with its MD5 sums, configuration and locale setup, and the editor widgets.
