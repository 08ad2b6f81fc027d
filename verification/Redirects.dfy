/** What is done with a browser's redirect, and that an honest one is understood. */
module Redirects {
  import opened Text
  import opened Utf8
  import opened Callback
  import opened Form
  import opened Enrollment

  /** Each way the second half can end: no answer from the token endpoint, a refusal, no token in it, a token that
      cannot be stored, and success. */
  ghost predicate Redeemed(
    code: string, reply: Option<Reply>, store: string -> bool, responds: bool, ending: Ending, log: seq<Effect>)
  {
    if reply.None? then log == [Exchanged(code)] + Told(500, responds) && ending == Failure(ExchangeFailed)
    else if reply.value.error.Some? then
      log == [Exchanged(code)] + Told(400, responds) && ending == Failure(if responds then TokenRefused else RespondFailed)
    else if reply.value.token.None? then
      log == [Exchanged(code)] + Told(400, responds) && ending == Failure(if responds then NoToken else RespondFailed)
    else
      var t := reply.value.token.value;
      if store(t) then
        (&& log == [Exchanged(code), Stored(t)] + Told(200, responds)
         && ending == if responds then Success(reply.value.scope) else Failure(RespondFailed))
      else log == [Exchanged(code), Stored(t)] + Told(500, responds) && ending == Failure(StoreFailed)
  }

  /** Each way the checks of a readable redirect can end before anything is redeemed: the first that fails names the
      problem, and the browser is told of it unless a field is repeated. */
  ghost predicate TurnedAway(fields: seq<Field>, state: string, responds: bool, ending: Ending, log: seq<Effect>) {
    var stated, refused, coded := One(fields, "state"), One(fields, "error"), One(fields, "code");
    && (RepeatsChecked(fields, state) ==> log == [] && ending == Failure(RepeatedField))
    && (stated.Found? && stated.value != Some(state) ==>
          log == Told(400, responds) && ending == Failure(if responds then WrongState else RespondFailed))
    && (stated == Found(Some(state)) && refused.Found? && refused.value.Some? ==>
          log == Told(400, responds)
          && ending == Failure(if !responds then RespondFailed
                               else if One(fields, "error_description") == Repeated then RepeatedField else SignInRefused))
    && (stated == Found(Some(state)) && refused == Found(None) && coded == Found(None) ==>
          log == Told(400, responds) && ending == Failure(if responds then NoCode else RespondFailed))
  }

  /** The second half, with the code of a redirect that passed every check. */
  method Redeem(code: string, exchange: string -> Option<Reply>, store: string -> bool, responds: bool)
    returns (ending: Ending, log: seq<Effect>)
    ensures 1 <= |log| <= 3 && log[0] == Exchanged(code)
    ensures InOrder(log)
    ensures forall t :: Stored(t) in log ==>
      exchange(code).Some? && exchange(code).value.error.None? && exchange(code).value.token == Some(t)
    ensures Responded(200) in log <==> responds && exists t :: log == [Exchanged(code), Stored(t), Responded(200)] && store(t)
    ensures ending.Success? <==> Responded(200) in log
    ensures ending.Success? ==> exchange(code).Some? && ending.scope == exchange(code).value.scope
    ensures Answers(log) <==> responds
    ensures Redeemed(code, exchange(code), store, responds, ending, log)
  {
    var reply := exchange(code);
    if reply.None? {
      log := Respond([Exchanged(code)], 500, responds);
      return Failure(ExchangeFailed), log;
    }
    if reply.value.error.Some? {
      log := Respond([Exchanged(code)], 400, responds);
      return Failure(if responds then TokenRefused else RespondFailed), log;
    }
    if reply.value.token.None? {
      log := Respond([Exchanged(code)], 400, responds);
      return Failure(if responds then NoToken else RespondFailed), log;
    }
    var token := reply.value.token.value;
    if !store(token) {
      log := Respond([Exchanged(code), Stored(token)], 500, responds);
      return Failure(StoreFailed), log;
    }
    log := Respond([Exchanged(code), Stored(token)], 200, responds);
    return if responds then Success(reply.value.scope) else Failure(RespondFailed), log;
  }

  /** `complete_with` after the connection is accepted. `responds` tells whether an answer gets through. */
  method CompleteWith(read: Result, state: string, exchange: string -> Option<Reply>, store: string -> bool, responds: bool)
    returns (ending: Ending, log: seq<Effect>)
    // The code is spent only for a redirect of this sign-in, and it is the redirect's own.
    ensures forall c :: Exchanged(c) in log <==> FieldsOf(read).Some? && Redeemable(FieldsOf(read).value, state, c)
    // A token is stored only after an exchange that returned it without an error.
    ensures forall t :: Stored(t) in log ==>
      (exists c :: |log| >= 2 && log[..2] == [Exchanged(c), Stored(t)]
         && exchange(c).Some? && exchange(c).value.error.None? && exchange(c).value.token == Some(t))
    // The browser is told of success only after the token is stored.
    ensures Responded(200) in log <==> responds && exists c, t :: log == [Exchanged(c), Stored(t), Responded(200)] && store(t)
    ensures ending.Success? <==> Responded(200) in log
    ensures ending.Success? ==>
      log[0].Exchanged? && exchange(log[0].code).Some? && ending.scope == exchange(log[0].code).value.scope
    // Each thing happens at most once, and the answer comes last.
    ensures InOrder(log)
    // The browser is left without an answer exactly when none gets through to it, or the redirect is unreadable or
    // repeats a field that is looked at.
    ensures !Answers(log) <==> !responds || FieldsOf(read).None? || RepeatsChecked(FieldsOf(read).value, state)
    // The problem named, case by case.
    ensures read.Failed? ==> ending == Failure(Unread(read.error)) && log == []
    ensures read.Target? && !("/?" <= read.target) ==> ending == Failure(WrongPath) && log == []
    ensures read.Target? && "/?" <= read.target && ParseQuery(read.target[2..]).None? ==> ending == Failure(NotUtf8) && log == []
    ensures read.Target? && "/?" <= read.target && ParseQuery(read.target[2..]).Some? ==>
      var fields := ParseQuery(read.target[2..]).value;
      && TurnedAway(fields, state, responds, ending, log)
      && forall c :: Redeemable(fields, state, c) ==> Redeemed(c, exchange(c), store, responds, ending, log)
  {
    hide ParseQuery, One;
    log := [];
    if read.Failed? { return Failure(Unread(read.error)), log; }
    if Query(read.target).None? { return Failure(WrongPath), log; }
    var parsed := ParseQuery(Query(read.target).value);
    if parsed.None? { return Failure(NotUtf8), log; }
    var fields := parsed.value;

    var stated := One(fields, "state");
    if stated.Repeated? { return Failure(RepeatedField), log; }
    if stated.value != Some(state) {
      log := Respond([], 400, responds);
      return Failure(if responds then WrongState else RespondFailed), log;
    }
    var refused := One(fields, "error");
    if refused.Repeated? { return Failure(RepeatedField), log; }
    if refused.value.Some? {
      log := Respond([], 400, responds);
      var described := One(fields, "error_description");
      return Failure(if !responds then RespondFailed else if described.Repeated? then RepeatedField else SignInRefused), log;
    }
    var coded := One(fields, "code");
    if coded.Repeated? { return Failure(RepeatedField), log; }
    if coded.value.None? {
      log := Respond([], 400, responds);
      return Failure(if responds then NoCode else RespondFailed), log;
    }
    var code := coded.value.value;
    assert Redeemable(fields, state, code);
    ending, log := Redeem(code, exchange, store, responds);
  }

  // ---- an honest redirect is understood ----

  lemma {:induction false} EncodedLine(s: string)
    requires Lacks(s, '\n')
    ensures forall i :: 0 <= i < |Utf8.Encode(s)| ==> Utf8.Encode(s)[i] != LF
  {
    if s != "" {
      EncodedLine(s[1..]);
      assert s[0] != '\n';
      assert forall i :: 0 <= i < |EncodeChar(s[0])| ==> EncodeChar(s[0])[i] != LF;
    }
  }

  lemma RequestWords(target: string)
    requires IsWord(target)
    ensures SplitWhitespace("GET " + target + " HTTP/1.1") == ["GET", target, "HTTP/1.1"]
    ensures Lacks("GET " + target + " HTTP/1.1\r", '\n')
  {
    hide SplitWhitespace;
    var words := ["GET", target, "HTTP/1.1"];
    SplitJoin(words, ' ');
    assert words[1..] == [target, "HTTP/1.1"] && words[1..][1..] == ["HTTP/1.1"];
    assert Join(words[1..], ' ') == target + [' '] + "HTTP/1.1";
    assert Join(words, ' ') == "GET" + [' '] + (target + [' '] + "HTTP/1.1");
    assert "GET " + target + " HTTP/1.1" == "GET" + [' '] + (target + [' '] + "HTTP/1.1");
    assert IsWhite('\n');
  }

  /** A browser's request for any target without white space yields that target, whatever headers follow. */
  lemma GetIsParsed(target: string, more: Bytes)
    requires IsWord(target)
    ensures Parse(Utf8.Encode("GET " + target + " HTTP/1.1\r") + [LF] + more) == Target(target)
  {
    hide SplitWhitespace, Utf8.Encode, Utf8.Decode, FirstLine;
    var line := "GET " + target + " HTTP/1.1";
    RequestWords(target);
    EncodedLine(line + "\r");
    assert "GET " + target + " HTTP/1.1\r" == line + "\r";
    FirstLineStops(Utf8.Encode(line + "\r"), more);
    DecodeEncode(line + "\r");
    assert (line + "\r")[..|line|] == line && line[|line| - 1] == '1';
    assert DropReturns(line + "\r") == DropReturns(line) == line;
  }

  predicate Printable(c: char) {
    Unreserved(c) || c == '=' || c == '&'
  }

  lemma PartIsPrintable(f: Field)
    ensures forall i :: 0 <= i < |Part(f)| ==> Printable(Part(f)[i])
  {
    hide EncodeText, DecodeText;
    TextRoundTrip(f.0);
    TextRoundTrip(f.1);
  }

  lemma {:induction false} PrintIsPrintable(fields: seq<Field>)
    ensures forall i :: 0 <= i < |Print(fields)| ==> Printable(Print(fields)[i])
  {
    hide Part, Printable;
    NoParts();
    if fields != [] {
      PartIsPrintable(fields[0]);
      PrintIsPrintable(fields[1..]);
      assert Parts(fields)[1..] == Parts(fields[1..]) && Parts(fields)[0] == Part(fields[0]);
      AmpersandPrints();
      if |fields| > 1 { assert Print(fields) == Part(fields[0]) + ['&'] + Print(fields[1..]); }
    }
  }

  lemma AmpersandPrints()
    ensures Printable('&')
  {
  }

  /** From the fields the server appended to the redirect back to the same fields: the browser's request is
      read, whatever its headers and with or without repeated or strange fields. */
  lemma RedirectIsUnderstood(fields: seq<Field>, more: Bytes)
    ensures FieldsOf(Parse(Utf8.Encode("GET /?" + Print(fields) + " HTTP/1.1\r") + [LF] + more)) == Some(fields)
  {
    hide Parse, Print, Utf8.Encode, ParseQuery;
    var target := "/?" + Print(fields);
    PrintIsPrintable(fields);
    forall i | 0 <= i < |target| ensures !IsWhite(target[i]) {
      assert i >= 2 ==> Printable(Print(fields)[i - 2]);
    }
    GetIsParsed(target, more);
    assert "GET /?" + Print(fields) + " HTTP/1.1\r" == "GET " + target + " HTTP/1.1\r";
    FormRoundTrip(fields);
    assert target[2..] == Print(fields);
  }
}
