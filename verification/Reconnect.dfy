/** The two loops that hold a `watch` connection, reconnect with backoff and publish only
    distinct states. One attempt is one `connect`, and what it brought until it ended. */
module Reconnect {
  import opened DaemonTypes
  import StateLine

  const RETRY_FLOOR: nat := 1    // seconds
  const RETRY_CEILING: nat := 30

  /** `Refused`: no connection, or the request could not be written. */
  datatype Attempt = Refused | Connected(lines: seq<string>)

  /** What one of the loops does with lines: which ones count, how a state takes one in,
      and what the state becomes when the connection ends. */
  datatype Feed<!S(==)> = Feed(start: S, counts: string -> bool, take: (S, string) -> S, gone: S -> S)

  function Received(a: Attempt): seq<string> {
    if a.Connected? then a.lines else []
  }

  predicate Counted<S>(f: Feed<S>, lines: seq<string>) {
    exists i :: 0 <= i < |lines| && f.counts(lines[i])
  }

  /** The attempt brought at least one state line. */
  predicate Spoke<S>(f: Feed<S>, a: Attempt) {
    Counted(f, Received(a))
  }

  /** The state after some lines of one connection. */
  function TakeAll<S>(f: Feed<S>, s: S, lines: seq<string>): S {
    if lines == [] then s else
      var before, line := TakeAll(f, s, lines[..|lines| - 1]), lines[|lines| - 1];
      if f.counts(line) then f.take(before, line) else before
  }

  /** The states one connection hands to the publisher, one for each line that counts. */
  function HandedBy<S>(f: Feed<S>, s: S, lines: seq<string>): seq<S> {
    if lines == [] then [] else
      HandedBy(f, s, lines[..|lines| - 1]) +
      (if f.counts(lines[|lines| - 1]) then [TakeAll(f, s, lines)] else [])
  }

  /** The loop's state after a number of attempts. */
  function StateAfter<S>(f: Feed<S>, attempts: seq<Attempt>): S {
    if attempts == [] then f.start
    else f.gone(TakeAll(f, StateAfter(f, attempts[..|attempts| - 1]), Received(attempts[|attempts| - 1])))
  }

  function Handed<S>(f: Feed<S>, attempts: seq<Attempt>): seq<S> {
    if attempts == [] then [] else
      var before := attempts[..|attempts| - 1];
      Handed(f, before) + HandedBy(f, StateAfter(f, before), Received(attempts[|attempts| - 1])) + [StateAfter(f, attempts)]
  }

  function SilentBefore<S>(f: Feed<S>, attempts: seq<Attempt>): nat {
    if attempts == [] || Spoke(f, attempts[|attempts| - 1]) then 0
    else 1 + SilentBefore(f, attempts[..|attempts| - 1])
  }

  function Pow2(k: nat): nat {
    if k == 0 then 1 else 2 * Pow2(k - 1)
  }

  function Min(a: nat, b: nat): nat {
    if a <= b then a else b
  }

  /** The closed form of the wait after `k` silent attempts in a row. */
  function Backoff(k: nat): nat {
    Min(RETRY_CEILING, Pow2(k))
  }

  /** How long the loop sleeps after each attempt. */
  function Sleeps<S>(f: Feed<S>, attempts: seq<Attempt>): seq<nat> {
    if attempts == [] then [] else
      var before, last := attempts[..|attempts| - 1], attempts[|attempts| - 1];
      Sleeps(f, before) + [if Spoke(f, last) then RETRY_FLOOR else Backoff(SilentBefore(f, before))]
  }

  // ---- the two loops ----

  function StateFeed(decode: string -> string): Feed<DaemonState> {
    Feed(DEFAULT_STATE,
         line => StateLine.IsStateLine(line),
         (s: DaemonState, line) => StateLine.ApplyLine(line, s, decode).(running := true),
         (s: DaemonState) => s.(running := false))
  }

  function CredentialFeed(): Feed<CredentialState> {
    Feed(CredentialState.Unknown,
         line => StateLine.CredentialOf(line).Some?,
         (c: CredentialState, line) =>
           var found := StateLine.CredentialOf(line);
           if found.Some? then found.value else c,
         (c: CredentialState) => CredentialState.Unknown)
  }
}
