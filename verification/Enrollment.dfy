/** Completing a sign-in: the order of the checks on the browser's redirect, and what happens only after them.
    Sections 4.1.2 and 10.12 of RFC 6749 ask for the state to be checked before the code is used. */
module Enrollment {
  import opened Text
  import opened Callback
  import opened Form

  /** The token endpoint's answer. */
  datatype Reply = Reply(error: Option<string>, token: Option<string>, scope: Option<string>)

  datatype Problem =
    | Unread(error: ReadError) | WrongPath | NotUtf8 | RepeatedField | WrongState | SignInRefused | NoCode
    | ExchangeFailed | TokenRefused | NoToken | StoreFailed | RespondFailed

  datatype Ending = Success(scope: Option<string>) | Failure(problem: Problem)

  /** What the outside sees. */
  datatype Effect = Responded(status: nat) | Exchanged(code: string) | Stored(token: string)

  function Query(target: string): Option<string> {
    if StartsWith(target, "/?") then Some(target[2..]) else None
  }

  /** The fields of the redirect, if it can be read that far. */
  function FieldsOf(read: Result): Option<seq<Field>> {
    if read.Failed? || Query(read.target).None? then None else ParseQuery(Query(read.target).value)
  }

  /** The redirect that is worth redeeming: it names this sign-in once, reports no error, and has one code. */
  predicate Redeemable(fields: seq<Field>, state: string, code: string) {
    && One(fields, "state") == Found(Some(state))
    && One(fields, "error") == Found(None)
    && One(fields, "code") == Found(Some(code))
  }

  /** A field is repeated, and the checks get as far as looking at it. */
  predicate RepeatsChecked(fields: seq<Field>, state: string) {
    || One(fields, "state") == Repeated
    || (One(fields, "state") == Found(Some(state))
        && (One(fields, "error") == Repeated || (One(fields, "error") == Found(None) && One(fields, "code") == Repeated)))
  }

  /** At most one exchange, then one attempt to store, then one answer. */
  predicate InOrder(log: seq<Effect>) {
    && |log| <= 3
    && (|log| == 1 ==> !log[0].Stored?)
    && (|log| >= 2 ==> log[0].Exchanged? && !log[1].Exchanged?)
    && (|log| == 3 ==> log[1].Stored? && log[2].Responded?)
  }

  /** An answer, or none when none gets through. */
  function Told(status: nat, responds: bool): seq<Effect> {
    if responds then [Responded(status)] else []
  }

  predicate Answers(log: seq<Effect>) {
    exists i :: 0 <= i < |log| && log[i].Responded?
  }

  /** An answer to the browser, if it gets through. */
  function Respond(log: seq<Effect>, status: nat, responds: bool): (r: seq<Effect>)
    ensures Answers(r) <==> responds || Answers(log)
  {
    var all := log + [Responded(status)];
    assert all[|log|].Responded? && forall i :: 0 <= i < |log| ==> all[i] == log[i];
    if responds then all else log
  }
}
