/**
 * The server loop of pacman.go: the session over one connection (`handle`) and the accept
 * loop with its back-off (`serve`). The connection's lines arrive already framed, the
 * handlers are seen only through what each line makes the session call, and whether a
 * call or a write fails is given, line by line, as an oracle.
 */
module Pacman {
  import opened Wrappers
  import opened Text
  import Handler

  const AddPackage := "AddPackage"
  const RemovePackage := "RemovePackage"
  const ListPackages := "ListPackages"

  /** The byte budget of one line. */
  const MaxLineLenBytes := 1024
  /** `time.Minute`, in nanoseconds: how far each read deadline is set ahead. */
  const ReadWriteTimeout := 60_000_000_000

  // ---------------------------------------------------------------------------------------
  // handle
  // ---------------------------------------------------------------------------------------

  /** What one line makes the session do. */
  datatype Call =
    | AddCall(args: seq<string>)     // `addPackage(connection, args...)`
    | RemoveCall(args: seq<string>)  // `removePackage(connection, args...)`
    | ListCall                       // `listPackages(connection)`
    | EmptyInput                     // the write of `EmptyInputResponse`
    | UnknownAction                  // the write of `UnknownActionResponse`

  /** The two responses `handle` writes itself rather than through a handler. */
  const EmptyInputResponse := "\nERROR: input is empty\n"
  const UnknownActionResponse := Handler.Wire(Handler.UnknownAction)

  /**
   * What `handle` writes itself for a call, if anything; the other calls go to a handler,
   * which does its own write. The unknown-action response reads back as that response.
   */
  function SessionWrite(c: Call): (w: Option<string>)
    ensures w.Some? <==> c.EmptyInput? || c.UnknownAction?
    ensures c.UnknownAction? ==> w == Some(UnknownActionResponse)
    ensures c.UnknownAction? ==> Handler.Decode(w.value) == Some(Handler.UnknownAction)
  {
    match c
    case EmptyInput => Some(EmptyInputResponse)
    case UnknownAction =>
      Handler.DecodeWire(Handler.UnknownAction);
      Some(UnknownActionResponse)
    case _ => None
  }

  /**
   * The body of the loop in `handle`: the line is split on single spaces, the first
   * segment names the action, exactly and case-sensitively, and the others are its
   * arguments. Splitting never yields no segment, so the empty-input branch is dead.
   */
  function Dispatch(line: string): (c: Call)
    ensures c != EmptyInput
    ensures c.AddCall? || c.RemoveCall? ==> c.args == Split(line, ' ')[1..]
  {
    var segments := Split(line, ' ');
    if |segments| == 0 then EmptyInput
    else
      var action, args := segments[0], segments[1..];
      if action == AddPackage then AddCall(args)
      else if action == RemovePackage then RemoveCall(args)
      else if action == ListPackages then ListCall
      else UnknownAction
  }

  /** A command line assembled from space-free tokens dispatches on its first token and passes the rest. */
  lemma DispatchTokens(action: string, args: seq<string>)
    requires ' ' !in action && forall i :: 0 <= i < |args| ==> ' ' !in args[i]
    ensures Dispatch(Join([action] + args, ' ')) ==
      if action == AddPackage then AddCall(args)
      else if action == RemovePackage then RemoveCall(args)
      else if action == ListPackages then ListCall
      else UnknownAction
  {
    var tokens := [action] + args;
    forall i | 0 <= i < |tokens| ensures ' ' !in tokens[i] {
      if i > 0 {
        assert tokens[i] == args[i - 1];
      }
    }
    SplitJoin(tokens, ' ');
    assert tokens[1..] == args;
  }

  /** `ListPackages` ignores whatever follows it. */
  lemma ListIgnoresArguments(rest: string)
    ensures Dispatch(ListPackages + " " + rest) == ListCall
  {
    SplitAfterToken(ListPackages, ' ', rest);
  }

  /** An empty line is the action "", which is unknown. */
  lemma EmptyLineIsUnknown()
    ensures Dispatch("") == UnknownAction
  {
    SplitToken("", ' ');
  }

  /** Action names are matched case-sensitively. */
  lemma ActionsAreCaseSensitive()
    ensures Dispatch("addpackage") == UnknownAction
  {
    SplitToken("addpackage", ' ');
    assert "addpackage"[0] != AddPackage[0];
  }

  /** Adjacent spaces leave an empty segment, which is passed on as an argument (here, as the name). */
  lemma DoubleSpaceEmptyName(dep: string)
    requires ' ' !in dep
    ensures Dispatch(AddPackage + [' ', ' '] + dep) == AddCall(["", dep])
  {
    var tail := [' '] + dep;
    SplitToken(dep, ' ');
    SplitAfterToken([], ' ', dep);
    assert [] + [' '] + dep == tail;
    SplitAfterToken(AddPackage, ' ', tail);
    assert AddPackage + [' '] + tail == AddPackage + [' ', ' '] + dep;
  }

  /** The position of the first failure, or the number of lines when none fails. */
  function FirstFailure(failed: seq<bool>): (r: nat)
    ensures r <= |failed|
    ensures forall i :: 0 <= i < r ==> !failed[i]
    ensures r < |failed| ==> failed[r]
  {
    if |failed| == 0 then 0
    else if failed[0] then 0
    else 1 + FirstFailure(failed[1..])
  }

  /**
   * `handle` over the framed `lines`: `failed[i]` says whether what line `i` makes the
   * session do returns an error. Each line is dispatched in turn; the first error ends the
   * session, after that line; every line handled without error re-arms the read deadline,
   * which was set once before the first line.
   */
  method Handle(lines: seq<string>, failed: seq<bool>) returns (calls: seq<Call>, deadlines: nat)
    requires |failed| == |lines|
    ensures |calls| == if FirstFailure(failed) < |lines| then FirstFailure(failed) + 1 else |lines|
    ensures forall i :: 0 <= i < |calls| ==> calls[i] == Dispatch(lines[i])
    ensures deadlines == 1 + FirstFailure(failed)
  {
    calls := [];
    deadlines := 1;
    var i := 0;
    while i < |lines|
      invariant i <= |lines| && forall j :: 0 <= j < i ==> !failed[j]
      invariant |calls| == i && forall j :: 0 <= j < i ==> calls[j] == Dispatch(lines[j])
      invariant deadlines == 1 + i
    {
      var call := Dispatch(lines[i]);
      calls := calls + [call];
      if failed[i] {
        FirstFailureIs(failed, i);
        return;
      }
      deadlines := deadlines + 1;
      i := i + 1;
    }
    FirstFailureIs(failed, i);
  }

  /** The first failure is the position before which nothing fails and at which, if anywhere, something does. */
  lemma FirstFailureIs(failed: seq<bool>, i: nat)
    requires i <= |failed| && forall j :: 0 <= j < i ==> !failed[j]
    requires i < |failed| ==> failed[i]
    ensures FirstFailure(failed) == i
  {
  }

  // ---------------------------------------------------------------------------------------
  // serve: the accept loop
  // ---------------------------------------------------------------------------------------

  /** What one `Accept` returns. */
  datatype AcceptResult = Connection | TemporaryError | OtherError

  /** `5 * time.Millisecond` and `1 * time.Second`, in nanoseconds. */
  const FirstDelay := 5_000_000
  const MaxDelay := 1_000_000_000

  /** The update of `tempDelay` after a temporary error: 5 ms at first, then doubled, never above 1 s. */
  function NextDelay(delay: nat): (r: nat)
    ensures r <= MaxDelay
    ensures delay == 0 ==> r == FirstDelay
    ensures FirstDelay <= delay ==> FirstDelay <= r
    ensures delay != 0 && 2 * delay <= MaxDelay ==> r == 2 * delay
    ensures delay != 0 && 2 * delay > MaxDelay ==> r == MaxDelay
  {
    var next := if delay == 0 then FirstDelay else delay * 2;
    if next > MaxDelay then MaxDelay else next
  }

  function Pow2(n: nat): (r: nat)
    ensures r >= 1
  {
    if n == 0 then 1 else 2 * Pow2(n - 1)
  }

  /** The reference delay after `n` consecutive temporary errors: 5 ms times 2^(n-1), capped at 1 s. */
  function Backoff(n: nat): nat
    requires n >= 1
  {
    var d := FirstDelay * Pow2(n - 1);
    if d > MaxDelay then MaxDelay else d
  }

  /** The update rule computes the reference delay. */
  lemma NextDelayBackoff(n: nat)
    ensures NextDelay(if n == 0 then 0 else Backoff(n)) == Backoff(n + 1)
  {
    if n > 0 {
      assert Pow2(n) == 2 * Pow2(n - 1);
    }
  }

  /** The delays stay within [5 ms, 1 s], grow, and reach 1 s from the ninth error on. */
  lemma {:induction false} BackoffBounds(n: nat)
    requires n >= 1
    ensures FirstDelay <= Backoff(n) <= MaxDelay
    ensures Backoff(n) <= Backoff(n + 1)
    ensures n >= 9 ==> Backoff(n) == MaxDelay
  {
    assert Pow2(n) == 2 * Pow2(n - 1);
    if n >= 9 {
      Pow2Grows(n - 1);
    }
  }

  lemma {:induction false} Pow2Grows(n: nat)
    requires n >= 8
    ensures Pow2(n) >= 256
  {
    if n > 8 {
      Pow2Grows(n - 1);
    } else {
      assert Pow2(8) == 256 by {
        assert Pow2(4) == 16;
      }
    }
  }

  /** The doubling is visible up to the eighth error: 640 ms. */
  lemma EighthDelay()
    ensures Backoff(8) == 640_000_000
  {
    assert Pow2(7) == 128 by {
      assert Pow2(3) == 8;
    }
  }

  /** The number of temporary errors at the end of `rs`. */
  function Streak(rs: seq<AcceptResult>): (r: nat)
    ensures r <= |rs|
  {
    if |rs| == 0 || rs[|rs| - 1] != TemporaryError then 0 else 1 + Streak(rs[..|rs| - 1])
  }

  /** The value of `tempDelay` once the results `rs` have been seen. */
  function Delay(rs: seq<AcceptResult>): nat
  {
    if Streak(rs) == 0 then 0 else Backoff(Streak(rs))
  }

  /** The sleeps of the accept loop over `rs`: one per temporary error, after as many in a row. */
  function Sleeps(rs: seq<AcceptResult>): (r: seq<nat>)
    ensures forall i :: 0 <= i < |r| ==> FirstDelay <= r[i] <= MaxDelay
  {
    if |rs| == 0 then []
    else if rs[|rs| - 1] == TemporaryError then
      BackoffBounds(Streak(rs));
      Sleeps(rs[..|rs| - 1]) + [Backoff(Streak(rs))]
    else Sleeps(rs[..|rs| - 1])
  }

  /** The number of connections accepted in `rs`. */
  function Accepted(rs: seq<AcceptResult>): (r: nat)
    ensures r <= |rs|
  {
    if |rs| == 0 then 0
    else Accepted(rs[..|rs| - 1]) + (if rs[|rs| - 1] == Connection then 1 else 0)
  }

  /** The position of the first error that is not temporary, or the number of results. */
  function FirstFatal(rs: seq<AcceptResult>): (r: nat)
    ensures r <= |rs|
    ensures forall i :: 0 <= i < r ==> rs[i] != OtherError
    ensures r < |rs| ==> rs[r] == OtherError
  {
    if |rs| == 0 then 0
    else if rs[0] == OtherError then 0
    else 1 + FirstFatal(rs[1..])
  }

  /**
   * The accept loop of `serve` over the results of successive `Accept` calls: a temporary
   * error sleeps for the next delay and retries; an accepted connection resets the delay and
   * is handed to `handle`; any other error signals shutdown and ends the loop.
   */
  method Serve(results: seq<AcceptResult>) returns (sleeps: seq<nat>, handled: nat, shutdown: bool)
    ensures shutdown <==> FirstFatal(results) < |results|
    ensures sleeps == Sleeps(results[..FirstFatal(results)])
    ensures handled == Accepted(results[..FirstFatal(results)])
  {
    var tempDelay := 0;
    sleeps, handled, shutdown := [], 0, false;
    var i := 0;
    while i < |results|
      invariant i <= FirstFatal(results)
      invariant tempDelay == Delay(results[..i])
      invariant sleeps == Sleeps(results[..i])
      invariant handled == Accepted(results[..i])
    {
      var seen := results[..i + 1];
      assert seen[..i] == results[..i];
      if results[i] == OtherError {
        shutdown := true;
        break;
      } else if results[i] == TemporaryError {
        NextDelayBackoff(Streak(results[..i]));
        tempDelay := NextDelay(tempDelay);
        sleeps := sleeps + [tempDelay];
      } else {
        tempDelay := 0;
        handled := handled + 1;
      }
      i := i + 1;
    }
  }

  /** A successful accept resets the back-off: the next temporary error sleeps 5 ms again. */
  lemma AcceptResets(rs: seq<AcceptResult>)
    ensures Delay(rs + [Connection]) == 0
    ensures Delay(rs + [Connection, TemporaryError]) == FirstDelay
  {
    var a := rs + [Connection];
    var b := rs + [Connection, TemporaryError];
    assert b[..|b| - 1] == a;
  }
}
