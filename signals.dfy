/** Vocabulary shared by both copies of the signal manager: the exceptions
    the Python code tells apart, what calling something does, `list.remove`,
    and the loop that calls every action of a signal in order. */
module Signals {

  /** The exceptions that matter to the signal manager. It catches only
      `KeyError`; every other kind escapes to whoever called it. `KeyError`
      stands for `KeyError` and every subclass of it, since `except KeyError`
      catches those too; `OtherError` is any exception outside that family. */
  datatype Exception = KeyError | ValueError | AssertionError | OtherError(kind: string)

  datatype Option<T> = None | Some(value: T)

  /** What a Python call does: return a value or raise an exception. */
  datatype Outcome<T> = Returned(value: T) | Raised(error: Exception)

  /** `list.remove(x)`: drop the first element equal to `x`, or raise
      `ValueError` when there is none. */
  function ListRemove<A(==)>(s: seq<A>, x: A): (r: Outcome<seq<A>>)
    ensures r.Raised? <==> x !in s
    ensures r.Raised? ==> r.error == ValueError
    ensures r.Returned? ==> |r.value| == |s| - 1
  {
    if s == [] then Raised(ValueError)
    else if s[0] == x then
      Returned(s[1..])
    else
      match ListRemove(s[1..], x)
      case Returned(t) => Returned([s[0]] + t)
      case Raised(e) => Raised(e)
  }

  /** `list.remove` takes out exactly the first occurrence: everything before
      it and everything after it stays, in order. */
  lemma {:induction false} ListRemoveFirstOccurrence<A>(s: seq<A>, x: A, i: nat)
    requires i < |s| && s[i] == x
    requires forall j :: 0 <= j < i ==> s[j] != x
    ensures ListRemove(s, x) == Returned(s[..i] + s[i + 1..])
  {
    if i == 0 {
      assert s[..i] + s[i + 1..] == s[1..];
    } else {
      assert s[0] != x;
      var tail := s[1..];
      forall j | 0 <= j < i - 1
        ensures tail[j] != x
      {
        assert tail[j] == s[j + 1];
      }
      ListRemoveFirstOccurrence(tail, x, i - 1);
      assert ListRemove(s, x) == Returned([s[0]] + ListRemove(tail, x).value);
      assert tail[..i - 1] == s[1..i];
      assert tail[i..] == s[i + 1..];
      assert [s[0]] + s[1..i] == s[..i];
      calc {
        [s[0]] + (tail[..i - 1] + tail[i..]);
        ([s[0]] + s[1..i]) + s[i + 1..];
        s[..i] + s[i + 1..];
      }
    }
  }

  /** What the `for action in actions` loop of `emit_signal` leaves behind:
      the results appended so far and, if an action raised, the exception
      that ended the loop. */
  datatype Run<R> = Run(results: seq<R>, stopped: Option<Exception>)

  /** Call every action in order with the same data, appending each return
      value, until one raises. */
  function RunActions<A, D, R>(actions: seq<A>, call: (A, D) -> Outcome<R>, data: D): (r: Run<R>)
    ensures |r.results| <= |actions|
    ensures r.stopped.None? ==> |r.results| == |actions|
  {
    if actions == [] then Run([], None)
    else
      match call(actions[0], data)
      case Returned(v) =>
        var rest := RunActions(actions[1..], call, data);
        Run([v] + rest.results, rest.stopped)
      case Raised(e) => Run([], Some(e))
  }

  /** The loop in full: if the first `k` actions return and action `k` raises
      (or there is none), the run holds exactly the first `k` return values,
      in registration order, and stops with action `k`'s exception. */
  lemma {:induction false} RunActionsStopsAt<A, D, R>(actions: seq<A>, call: (A, D) -> Outcome<R>, data: D, k: nat)
    requires k <= |actions|
    requires forall i :: 0 <= i < k ==> call(actions[i], data).Returned?
    requires k < |actions| ==> call(actions[k], data).Raised?
    ensures |RunActions(actions, call, data).results| == k
    ensures forall i :: 0 <= i < k ==> RunActions(actions, call, data).results[i] == call(actions[i], data).value
    ensures RunActions(actions, call, data).stopped
            == if k == |actions| then None else Some(call(actions[k], data).error)
  {
    if k > 0 {
      assert call(actions[0], data).Returned?;
      forall i | 0 <= i < k - 1
        ensures call(actions[1..][i], data).Returned?
      {
        assert actions[1..][i] == actions[i + 1];
      }
      RunActionsStopsAt(actions[1..], call, data, k - 1);
      var rest := RunActions(actions[1..], call, data);
      assert RunActions(actions, call, data).results == [call(actions[0], data).value] + rest.results;
      forall i | 0 < i < k
        ensures RunActions(actions, call, data).results[i] == call(actions[i], data).value
      {
        assert actions[1..][i - 1] == actions[i];
      }
    }
  }

  /** Running `s + t` where every action of `s` returns: the values of `s`
      come first, then the run of `t` carries on. */
  lemma {:induction false} RunActionsAppend<A, D, R>(s: seq<A>, t: seq<A>, call: (A, D) -> Outcome<R>, data: D)
    requires forall i :: 0 <= i < |s| ==> call(s[i], data).Returned?
    ensures RunActions(s, call, data).stopped.None?
    ensures RunActions(s + t, call, data)
            == Run(RunActions(s, call, data).results + RunActions(t, call, data).results,
                   RunActions(t, call, data).stopped)
  {
    if s != [] {
      assert (s + t)[0] == s[0];
      assert (s + t)[1..] == s[1..] + t;
      forall i | 0 <= i < |s| - 1
        ensures call(s[1..][i], data).Returned?
      {
        assert s[1..][i] == s[i + 1];
      }
      RunActionsAppend(s[1..], t, call, data);
      assert call(s[0], data).Returned?;
      var v := call(s[0], data).value;
      assert RunActions(s, call, data).results == [v] + RunActions(s[1..], call, data).results;
      assert RunActions(s + t, call, data).results == [v] + RunActions(s[1..] + t, call, data).results;
    } else {
      assert s + t == t;
    }
  }

  /** The `for` loop of `emit_signal`, statement by statement. */
  method CallEach<A, D, R>(actions: seq<A>, call: (A, D) -> Outcome<R>, data: D) returns (run: Run<R>)
    ensures run == RunActions(actions, call, data)
  {
    var results: seq<R> := [];
    for i := 0 to |actions|
      invariant |results| == i
      invariant forall j :: 0 <= j < i ==> call(actions[j], data).Returned?
      invariant forall j :: 0 <= j < i ==> results[j] == call(actions[j], data).value
    {
      var res := call(actions[i], data);
      match res {
        case Returned(v) =>
          results := results + [v];
        case Raised(e) =>
          RunActionsStopsAt(actions, call, data, i);
          return Run(results, Some(e));
      }
    }
    RunActionsStopsAt(actions, call, data, |actions|);
    run := Run(results, None);
  }
}
