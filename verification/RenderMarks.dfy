/** Exactly which templates the chain of replacements renders as meant. */
module RenderMarks {
  import opened Text
  import opened Paths
  import opened Render

  /** The literal between tokens `a` and `b` reads like a name that has its turn before that of `a` and not
      after that of `b`. */
  predicate GapConfused(a: Token, literal: string, b: Token, stages: seq<Token>)
    decreases |stages|
  {
    stages != [] && a != stages[0]
    && (literal == NameOf(stages[0]) || (b != stages[0] && GapConfused(a, literal, b, stages[1..])))
  }

  predicate Confusable(rest: seq<Piece>, stages: seq<Token>) {
    exists i :: 0 <= i < |rest| - 1 && GapAt(rest, i, stages)
  }

  predicate GapAt(rest: seq<Piece>, i: nat, stages: seq<Token>)
    requires i < |rest| - 1
  {
    GapConfused(rest[i].token, rest[i].after, rest[i + 1].token, stages)
  }

  /** A gap that the first stage leaves alone is confused later. */
  predicate ConfusableLater(rest: seq<Piece>, token: Token, stages: seq<Token>) {
    exists i :: 0 <= i < |rest| - 1 && rest[i].token != token && rest[i + 1].token != token && GapAt(rest, i, stages)
  }

  lemma ConfusableNow(rest: seq<Piece>, stages: seq<Token>)
    requires stages != []
    ensures Confusable(rest, stages) <==> Confused(rest, stages[0]) || ConfusableLater(rest, stages[0], stages[1..])
  {
    hide NameOf;
    if i :| 0 <= i < |rest| - 1 && rest[i].token != stages[0] && rest[i].after == NameOf(stages[0]) {
      assert GapAt(rest, i, stages);
    }
    if i :| 0 <= i < |rest| - 1 && rest[i].token != stages[0] && rest[i + 1].token != stages[0] && GapAt(rest, i, stages[1..]) {
      assert GapAt(rest, i, stages);
    }
    if i :| 0 <= i < |rest| - 1 && GapAt(rest, i, stages) {
      assert rest[i].after == NameOf(stages[0]) || GapAt(rest, i, stages[1..]);
    }
  }

  lemma {:induction false} OtherCharIsNoName(a: Token, literal: string, b: Token, stages: seq<Token>)
    requires HasOtherChar(literal)
    ensures !GapConfused(a, literal, b, stages)
    decreases |stages|
  {
    if stages != [] { OtherCharIsNoName(a, literal, b, stages[1..]); }
  }

  lemma LaterStep(rest: seq<Piece>, token: Token, stages: seq<Token>)
    requires rest != []
    ensures ConfusableLater(rest, token, stages) <==>
      || (|rest| > 1 && rest[0].token != token && rest[1].token != token && GapAt(rest, 0, stages))
      || ConfusableLater(rest[1..], token, stages)
  {
    hide GapConfused;
    var tail := rest[1..];
    assert forall i :: 0 <= i < |tail| ==> tail[i] == rest[i + 1];
    assert forall i :: 0 <= i < |tail| - 1 ==> GapAt(tail, i, stages) == GapAt(rest, i + 1, stages);
    if ConfusableLater(rest, token, stages) {
      var i :| 0 <= i < |rest| - 1 && rest[i].token != token && rest[i + 1].token != token && GapAt(rest, i, stages);
      if i > 0 { assert GapAt(tail, i - 1, stages); }
    }
  }

  lemma ConfusableStep(piece: Piece, pieces: seq<Piece>, stages: seq<Token>)
    ensures Confusable([piece] + pieces, stages) <==>
      (pieces != [] && GapConfused(piece.token, piece.after, pieces[0].token, stages)) || Confusable(pieces, stages)
  {
    hide GapConfused;
    var all := [piece] + pieces;
    assert forall i :: 0 <= i < |pieces| - 1 ==> GapAt(pieces, i, stages) == GapAt(all, i + 1, stages);
    if Confusable(all, stages) {
      var i :| 0 <= i < |all| - 1 && GapAt(all, i, stages);
      if i > 0 { assert GapAt(pieces, i - 1, stages); }
    }
    if pieces != [] { assert GapAt(all, 0, stages) == GapConfused(piece.token, piece.after, pieces[0].token, stages); }
  }

  /** A value with a character no name contains makes no literal a name. */
  lemma {:induction false} SubstKeepsGaps(rest: seq<Piece>, token: Token, value: string, stages: seq<Token>)
    requires HasOtherChar(value)
    ensures var (more, pieces) := SubstFrom(rest, token, value);
      && (Confusable(pieces, stages) <==> ConfusableLater(rest, token, stages))
      && (rest != [] && rest[0].token == token ==> HasOtherChar(more))
      && (rest == [] || rest[0].token != token ==> more == "")
      && (rest != [] && rest[0].token != token ==> pieces != [] && pieces[0].token == rest[0].token)
      && (rest == [] ==> pieces == [])
  {
    hide GapConfused;
    if rest != [] {
      var p, tail := rest[0], rest[1..];
      var (more, pieces) := SubstFrom(tail, token, value);
      SubstKeepsGaps(tail, token, value, stages);
      LaterStep(rest, token, stages);
      if p.token == token {
        WiderHasOtherChar("", value, p.after + more);
        assert "" + value + (p.after + more) == value + p.after + more;
      } else {
        ConfusableStep(Piece(p.token, p.after + more), pieces, stages);
        if tail != [] && tail[0].token == token {
          WiderHasOtherChar(p.after, more, "");
          assert p.after + more + "" == p.after + more;
          if pieces != [] { OtherCharIsNoName(p.token, p.after + more, pieces[0].token, stages); }
        } else {
          assert p.after + "" == p.after;
        }
      }
    }
  }

  predicate OtherValues(values: Values) {
    forall token :: HasOtherChar(values(token))
  }

  /** For such values it depends on the template alone whether a stage meets a literal it takes for a token. */
  lemma {:induction false} SafeExactly(t: Template, stages: seq<Token>, values: Values)
    requires OtherValues(values)
    ensures Safe(t, stages, values) <==> !Confusable(t.rest, stages)
    decreases |stages|
  {
    hide GapConfused, Confused, SubstFrom, Confusable, ConfusableLater;
    if stages == [] {
      NothingConfused(t.rest);
    } else {
      var token := stages[0];
      ConfusableNow(t.rest, stages);
      SubstKeepsGaps(t.rest, token, values(token), stages[1..]);
      SafeExactly(Subst(t, token, values(token)), stages[1..], values);
    }
  }

  lemma NothingConfused(rest: seq<Piece>)
    ensures !Confusable(rest, [])
  {
  }

  // ---- a confused chain leaves marks ----

  /** A text as the words between its marks. */
  function WordsFrom(rest: seq<Piece>): seq<string> {
    if rest == [] then [] else [NameOf(rest[0].token), rest[0].after] + WordsFrom(rest[1..])
  }

  predicate PlainWords(words: seq<string>) {
    forall i :: 0 <= i < |words| ==> Lacks(words[i], '@')
  }

  /** One replacement, as it acts on the words. */
  function Pass(words: seq<string>, name: string, value: string): (r: seq<string>)
    ensures words != [] ==> r != []
    decreases |words|
  {
    if |words| <= 2 then words
    else if words[1] == name then
      var r := Pass(words[2..], name, value);
      [words[0] + value + r[0]] + r[1..]
    else [words[0]] + Pass(words[1..], name, value)
  }

  lemma JoinStep(words: seq<string>)
    requires |words| > 1
    ensures Join(words, '@') == words[0] + ("@" + Join(words[1..], '@'))
  {
  }

  lemma {:induction false} PassReplaces(words: seq<string>, token: Token, value: string)
    requires words != [] && PlainWords(words)
    ensures ReplaceAll(Join(words, '@'), Marked(token), value) == Join(Pass(words, NameOf(token), value), '@')
    decreases |words|
  {
    hide ReplaceAll, NameOf, Join;
    var name, pattern := NameOf(token), Marked(token);
    if |words| == 1 {
      OneWord(words[0]);
      SkipPlain(words[0], "", pattern, value);
      NothingReplaced(token, value);
      assert words[0] + "" == words[0] && Join(words, '@') == words[0] by { OneWord(words[0]); assert words == [words[0]]; }
    } else {
      JoinStep(words);
      var tail := Join(words[1..], '@');
      SkipPlain(words[0], "@" + tail, pattern, value);
      var more := if |words| > 2 then "@" + Join(words[2..], '@') else "";
      assert tail == words[1] + more by {
        if |words| > 2 { JoinStep(words[1..]); assert words[1..][1..] == words[2..]; }
        else { OneWord(words[1]); assert words[1..] == [words[1]]; assert words[1] + "" == words[1]; }
      }
      assert "@" + tail == "@" + words[1] + more;
      MarkedAt(token, words[1], more);
      if |words| > 2 && words[1] == name {
        PassMatch(words, token, value, more);
      } else {
        PassSkip(words, token, value, more);
      }
    }
  }

  lemma OneWord(word: string)
    ensures Join([word], '@') == word
  {
  }

  lemma NothingReplaced(token: Token, value: string)
    ensures ReplaceAll("", Marked(token), value) == ""
  {
  }

  lemma PassMatch(words: seq<string>, token: Token, value: string, more: string)
    requires |words| > 2 && PlainWords(words) && words[1] == NameOf(token) && more == "@" + Join(words[2..], '@')
    requires ReplaceAll(Join(words, '@'), Marked(token), value)
      == words[0] + ReplaceAll("@" + words[1] + more, Marked(token), value)
    ensures ReplaceAll(Join(words, '@'), Marked(token), value) == Join(Pass(words, NameOf(token), value), '@')
    decreases |words|, 0
  {
    hide NameOf, Join;
    var pattern, rest := Marked(token), Join(words[2..], '@');
    PassReplaces(words[2..], token, value);
    assert "@" + words[1] + more == pattern + rest;
    assert (pattern + rest)[|pattern|..] == rest;
    var r := Pass(words[2..], NameOf(token), value);
    JoinFront(words[0] + value, r);
    assert words[0] + (value + Join(r, '@')) == (words[0] + value) + Join(r, '@');
  }

  lemma JoinFront(front: string, words: seq<string>)
    requires words != []
    ensures Join([front + words[0]] + words[1..], '@') == front + Join(words, '@')
  {
    var all := [front + words[0]] + words[1..];
    if |words| > 1 {
      assert all[1..] == words[1..];
      JoinStep(words);
      JoinStep(all);
      Assoc(front, words[0], "@" + Join(words[1..], '@'));
    }
  }

  lemma PassSkip(words: seq<string>, token: Token, value: string, more: string)
    requires |words| > 1 && PlainWords(words) && (|words| > 2 ==> words[1] != NameOf(token))
    requires Join(words[1..], '@') == words[1] + more && !(Marked(token) <= "@" + words[1] + more)
    requires ReplaceAll(Join(words, '@'), Marked(token), value)
      == words[0] + ReplaceAll("@" + words[1] + more, Marked(token), value)
    ensures ReplaceAll(Join(words, '@'), Marked(token), value) == Join(Pass(words, NameOf(token), value), '@')
    decreases |words|, 0
  {
    hide NameOf, Join, ReplaceAll;
    var pattern, tail := Marked(token), words[1..];
    PassReplaces(tail, token, value);
    ShortText("@" + words[1] + more, pattern, value);
    assert ("@" + words[1] + more)[1..] == words[1] + more;
    var r := Pass(tail, NameOf(token), value);
    if |words| > 2 {
      var all := [words[0]] + r;
      assert all[1..] == r;
      JoinStep(all);
    } else {
      assert r == tail;
      JoinStep(words);
    }
  }

  /** How many marks at least are left in the end: a word with a character no name contains is never taken for
      a token, and of two neighbours at most one is. */
  function Debt(words: seq<string>): nat
    decreases |words|
  {
    if |words| <= 1 then 0
    else if |words| == 2 then 1
    else if HasOtherChar(words[1]) then 1 + Debt(words[1..])
    else Debt(words[2..])
  }

  lemma {:induction false} DebtIsSteady(words: seq<string>)
    requires |words| > 1
    ensures Debt(words) <= Debt(words[1..]) + 1 && Debt(words[1..]) <= Debt(words) + 1
    decreases |words|
  {
    if |words| > 2 && !HasOtherChar(words[1]) {
      DebtIsSteady(words[1..]);
      assert words[1..][1..] == words[2..];
    }
  }

  lemma DebtForgetsFirst(a: string, b: string, rest: seq<string>)
    ensures Debt([a] + rest) == Debt([b] + rest)
  {
    if |rest| > 1 {
      assert ([a] + rest)[1..] == rest == ([b] + rest)[1..];
      assert ([a] + rest)[2..] == rest[1..] == ([b] + rest)[2..];
    }
  }

  lemma PassHead(words: seq<string>, name: string, value: string)
    requires words != [] && HasOtherChar(value)
    ensures var r := Pass(words, name, value);
      HasOtherChar(r[0]) || (r[0] == words[0] && (|words| > 1 ==> r == [words[0]] + Pass(words[1..], name, value)))
  {
    if |words| > 2 && words[1] == name {
      WiderHasOtherChar(words[0], value, Pass(words[2..], name, value)[0]);
    } else if |words| == 2 {
      assert words == [words[0]] + words[1..];
    }
  }

  /** No replacement pays the debt. */
  lemma {:induction false} PassKeepsDebt(words: seq<string>, name: string, value: string)
    requires words != [] && HasOtherChar(value) && !HasOtherChar(name)
    ensures Debt(words) <= Debt(Pass(words, name, value))
    decreases |words|
  {
    hide HasOtherChar;
    if |words| > 2 {
      if words[1] == name {
        var r := Pass(words[2..], name, value);
        PassKeepsDebt(words[2..], name, value);
        DebtForgetsFirst(words[0] + value + r[0], r[0], r[1..]);
        assert [r[0]] + r[1..] == r;
      } else {
        var r := Pass(words[1..], name, value);
        var all := [words[0]] + r;
        PassKeepsDebt(words[1..], name, value);
        PassKeepsDebt(words[2..], name, value);
        DebtIsSteady(words);
        PassHead(words[1..], name, value);
        assert all[1..] == r && words[1..][1..] == words[2..];
        if |r| > 1 && !HasOtherChar(r[0]) { assert all[2..] == Pass(words[2..], name, value); }
      }
    }
  }

  lemma NamesHaveNoOther(token: Token)
    ensures !HasOtherChar(NameOf(token))
  {
  }

  /** A literal taken for a token puts the chain in debt. */
  lemma {:induction false} ConfusedHasDebt(head: string, rest: seq<Piece>, token: Token, value: string)
    requires Confused(rest, token) && HasOtherChar(value)
    ensures Debt(Pass([head] + WordsFrom(rest), NameOf(token), value)) > 0
    decreases |rest|
  {
    hide NameOf, HasOtherChar;
    var name, a, after, tail := NameOf(token), NameOf(rest[0].token), rest[0].after, rest[1..];
    var words, below := [head] + WordsFrom(rest), [after] + WordsFrom(tail);
    assert words[1..] == [a] + below && words[2..] == below;
    DistinctNames(rest[0].token, token);
    assert Confused(rest, token) <==> (|rest| > 1 && rest[0].token != token && after == name) || Confused(tail, token);
    if Confused(tail, token) { ConfusedHasDebt(after, tail, token, value); }
    if rest[0].token == token {
      MatchInDebt(head, below, name, value);
    } else if after == name && tail != [] {
      assert below == [name] + WordsFrom(tail);
      LiteralInDebt(head, a, WordsFrom(tail), name, value);
    } else {
      NamesHaveNoOther(rest[0].token);
      KeptInDebt(head, a, below, name, value);
    }
  }

  lemma MatchInDebt(head: string, below: seq<string>, name: string, value: string)
    requires below != [] && Debt(Pass(below, name, value)) > 0
    ensures Debt(Pass([head] + ([name] + below), name, value)) > 0
  {
    var r := Pass(below, name, value);
    assert ([head] + ([name] + below))[2..] == below;
    DebtForgetsFirst(head + value + r[0], r[0], r[1..]);
    assert [r[0]] + r[1..] == r;
  }

  lemma LiteralInDebt(head: string, a: string, next: seq<string>, name: string, value: string)
    requires next != [] && a != name && HasOtherChar(value)
    ensures Debt(Pass([head] + ([a] + ([name] + next)), name, value)) > 0
  {
    hide HasOtherChar;
    var r := Pass(next, name, value);
    var merged := [a + value + r[0]] + r[1..];
    assert ([head] + ([a] + ([name] + next)))[1..] == [a] + ([name] + next) && ([a] + ([name] + next))[2..] == next;
    assert Pass([a] + ([name] + next), name, value) == merged;
    WiderHasOtherChar(a, value, r[0]);
    assert ([head] + merged)[1..] == merged;
  }

  lemma KeptInDebt(head: string, a: string, below: seq<string>, name: string, value: string)
    requires a != name && !HasOtherChar(a) && below != []
    requires |below| > 1 ==> below[0] != name
    requires Debt(Pass(below, name, value)) > 0
    ensures Debt(Pass([head] + ([a] + below), name, value)) > 0
  {
    hide HasOtherChar;
    var words, r := [head] + ([a] + below), Pass(below, name, value);
    assert words[1..] == [a] + below && ([a] + below)[1..] == below;
    assert Pass([a] + below, name, value) == [a] + r;
    assert Pass(words, name, value) == [head] + ([a] + r);
    assert ([head] + ([a] + r))[2..] == r;
  }

  lemma {:induction false} TextIsWords(head: string, rest: seq<Piece>)
    ensures head + TextFrom(rest) == Join([head] + WordsFrom(rest), '@')
    decreases |rest|
  {
    hide NameOf, Join;
    var words := [head] + WordsFrom(rest);
    if rest == [] {
      OneWord(head);
      assert words == [head] && head + "" == head;
    } else {
      var a, after := NameOf(rest[0].token), rest[0].after;
      var below := [after] + WordsFrom(rest[1..]);
      TextIsWords(after, rest[1..]);
      assert words[1..] == [a] + below && ([a] + below)[1..] == below;
      JoinStep(words);
      JoinStep([a] + below);
      assert TextFrom(rest) == "@" + (a + ("@" + (after + TextFrom(rest[1..]))));
    }
  }

  lemma {:induction false} WordsArePlain(head: string, rest: seq<Piece>)
    requires Lacks(head, '@') && PlainFrom(rest)
    ensures PlainWords([head] + WordsFrom(rest))
    decreases |rest|
  {
    if rest != [] {
      WordsArePlain(rest[0].after, rest[1..]);
      var below := [rest[0].after] + WordsFrom(rest[1..]);
      assert [head] + WordsFrom(rest) == [head, NameOf(rest[0].token)] + below;
    }
  }

  lemma {:induction false} PassIsPlain(words: seq<string>, name: string, value: string)
    requires words != [] && PlainWords(words) && Lacks(value, '@')
    ensures PlainWords(Pass(words, name, value))
    decreases |words|
  {
    if |words| > 2 {
      if words[1] == name { PassIsPlain(words[2..], name, value); } else { PassIsPlain(words[1..], name, value); }
    }
  }

  lemma JoinHasMark(words: seq<string>)
    requires |words| > 1
    ensures !Lacks(Join(words, '@'), '@')
  {
    JoinStep(words);
    assert Join(words, '@')[|words[0]|] == '@';
  }

  lemma {:induction false} DebtStays(words: seq<string>, stages: seq<Token>, values: Values)
    requires words != [] && PlainWords(words) && Debt(words) > 0 && PlainValues(values) && OtherValues(values)
    ensures !Lacks(Chain(Join(words, '@'), stages, values), '@')
    decreases |stages|
  {
    hide Pass, ReplaceAll, Debt, NameOf, Lacks, HasOtherChar;
    if stages == [] {
      assert |words| > 1 by { DebtNeedsMarks(words); }
      JoinHasMark(words);
    } else {
      var name, value := NameOf(stages[0]), values(stages[0]);
      PassReplaces(words, stages[0], value);
      PassIsPlain(words, name, value);
      NamesHaveNoOther(stages[0]);
      PassKeepsDebt(words, name, value);
      DebtStays(Pass(words, name, value), stages[1..], values);
    }
  }

  lemma DebtNeedsMarks(words: seq<string>)
    requires Debt(words) > 0
    ensures |words| > 1
  {
  }

  lemma {:induction false} UnsafeLeavesMark(t: Template, stages: seq<Token>, values: Values)
    requires Plain(t) && PlainValues(values) && OtherValues(values) && !Safe(t, stages, values)
    ensures !Lacks(Chain(TextOf(t), stages, values), '@')
    decreases |stages|
  {
    hide Lacks, ReplaceAll, Confused, Subst, WordsFrom, NameOf, HasOtherChar, Pass, Debt;
    var token, value := stages[0], values(stages[0]);
    if Confused(t.rest, token) {
      var words := [t.head] + WordsFrom(t.rest);
      TextIsWords(t.head, t.rest);
      WordsArePlain(t.head, t.rest);
      ConfusedHasDebt(t.head, t.rest, token, value);
      PassReplaces(words, token, value);
      PassIsPlain(words, NameOf(token), value);
      DebtStays(Pass(words, NameOf(token), value), stages[1..], values);
    } else {
      StageIsExact(t, token, value);
      SubstPlain(t, token, value);
      UnsafeLeavesMark(Subst(t, token, value), stages[1..], values);
    }
  }

  /** For values that cannot be part of a name (paths and numbers are such) the chain is the simultaneous
      substitution, and leaves no mark, exactly when the template is not confusable; the values play no part. */
  lemma RenderExactly(t: Template, stages: seq<Token>, values: Values)
    requires Plain(t) && PlainValues(values) && OtherValues(values)
    requires forall token :: Mentions(t.rest, token) ==> token in stages
    ensures Chain(TextOf(t), stages, values) == AtOnce(t, values) <==> !Confusable(t.rest, stages)
    ensures Lacks(Chain(TextOf(t), stages, values), '@') <==> !Confusable(t.rest, stages)
  {
    hide Chain, Safe, Intended, SubstAll, Confusable, Lacks;
    SafeExactly(t, stages, values);
    AtOncePlain(t.rest, values);
    AtOnceLacks(t, values);
    if Safe(t, stages, values) {
      ChainIsExact(t, stages, values);
      AllReplaced(t, stages, values);
      assert TextFrom([]) == "" && AtOnce(t, values) + "" == AtOnce(t, values);
    } else {
      UnsafeLeavesMark(t, stages, values);
    }
  }

  lemma AtOnceLacks(t: Template, values: Values)
    requires Plain(t) && PlainValues(values)
    ensures Lacks(AtOnce(t, values), '@')
  {
    AtOncePlain(t.rest, values);
  }

  /** So `render` leaves marks in `@HOME@USER@HOME@`, whatever the paths. */
  lemma RenderLeavesMarks(values: Values)
    requires PlainValues(values) && OtherValues(values)
    ensures var t := Template("", [Piece(Home, "USER"), Piece(Home, "")]);
      Chain(TextOf(t), ORDER, values) != AtOnce(t, values) && !Lacks(Chain(TextOf(t), ORDER, values), '@')
  {
    hide Chain, AtOnce, TextOf, PlainValues, OtherValues;
    var t := Template("", [Piece(Home, "USER"), Piece(Home, "")]);
    InOrder(Home);
    assert GapAt(t.rest, 0, ORDER);
    RenderExactly(t, ORDER, values);
  }

  // ---- the facts of a deployment ----

  lemma WithOtherChar(s: string, i: nat)
    requires i < |s| && !NameChar(s[i])
    ensures HasOtherChar(s)
  {
  }

  /** Numbers, paths and their specifier forms are never part of a name. */
  lemma FactsAreOther(f: Facts, token: Token)
    requires HasOtherChar(f.user) && HasOtherChar(f.clientId)
    ensures HasOtherChar(ValueOf(f, token))
  {
    hide Join, HasOtherChar;
    if token != User && token != ClientId { WithOtherChar(ValueOf(f, token), 0); }
  }

  /** So a unit's text is its template with every value in its place, and has no mark left, exactly when the
      template is not confusable, for every account name and client id that is not all capitals. */
  lemma RenderedExactly(t: Template, f: Facts)
    requires Plain(t) && (forall token :: Lacks(ValueOf(f, token), '@'))
    requires HasOtherChar(f.user) && HasOtherChar(f.clientId)
    ensures Chain(TextOf(t), ORDER, token => ValueOf(f, token)) == AtOnce(t, token => ValueOf(f, token))
      <==> !Confusable(t.rest, ORDER)
    ensures Lacks(Chain(TextOf(t), ORDER, token => ValueOf(f, token)), '@') <==> !Confusable(t.rest, ORDER)
  {
    hide ValueOf, Chain, AtOnce, TextOf, HasOtherChar, Confusable;
    var values: Values := token => ValueOf(f, token);
    forall token ensures HasOtherChar(values(token)) && token in ORDER {
      FactsAreOther(f, token);
      InOrder(token);
    }
    RenderExactly(t, ORDER, values);
  }

  /** The marks of a template. */
  function Mark(token: Token): string {
    "@" + (match token
           case User => "USER"
           case Uid => "UID"
           case Home => "HOME"
           case MountUser => "MOUNT_USER"
           case Mount => "MOUNT"
           case SocketUser => "SOCKET_USER"
           case Socket => "SOCKET"
           case ClientId => "CLIENT_ID"
           case Bin => "BIN") + "@"
  }

  /** A path, through the specifier for a directory when it lies there. */
  function Through(specifier: string, base: Path, p: Path): string {
    if base <= p then specifier + Join(p[|base|..], '/') else "/" + Join(p, '/')
  }

  /** What each stands for. */
  function Fact(f: Facts, token: Token): string {
    match token
    case User => f.user
    case Uid => Decimal(f.uid)
    case Home => "/" + Join(f.home, '/')
    case MountUser => Through("%h/", f.home, f.mount)
    case Mount => "/" + Join(f.mount, '/')
    case SocketUser => Through("%t/", ["run", "user", Decimal(f.uid)], f.socket)
    case Socket => "/" + Join(f.socket, '/')
    case ClientId => f.clientId
    case Bin => "/" + Join(f.bin, '/')
  }

  lemma MarkExactly(token: Token)
    ensures Mark(token) == Marked(token)
  {
  }

  lemma FactExactly(f: Facts, token: Token)
    ensures Fact(f, token) == ValueOf(f, token)
  {
    hide Join, Decimal;
    ThroughExactly("%h", f.home, f.mount);
    ThroughExactly("%t", RuntimeDir(f), f.socket);
    assert "%h" + "/" == "%h/" && "%t" + "/" == "%t/";
    hide Through, UserForm;
  }

  lemma ThroughExactly(specifier: string, base: Path, p: Path)
    ensures Through(specifier + "/", base, p) == UserForm(specifier, base, p)
  {
    hide Join;
  }

  /** Wherever a mark stands in a line, the fact it stands for takes its place. */
  lemma MarkBecomesFact(f: Facts, head: string, token: Token, after: string)
    requires Lacks(head, '@') && Lacks(after, '@') && forall t :: Lacks(ValueOf(f, t), '@')
    ensures Chain(head + Mark(token) + after, ORDER, t => ValueOf(f, t)) == head + Fact(f, token) + after
  {
    hide ValueOf, Chain, Lacks, Marked, Mark, Fact;
    MarkExactly(token);
    FactExactly(f, token);
    var rest := [Piece(token, after)];
    var t := Template(head, rest);
    var values: Values := t => ValueOf(f, t);
    RenderedText(t, f);
    assert rest[1..] == [];
    assert TextFrom(rest) == Mark(token) + after + "" && AtOnceFrom(rest, values) == Fact(f, token) + after + "";
    assert head + (Mark(token) + after + "") == head + Mark(token) + after;
    assert head + (Fact(f, token) + after + "") == head + Fact(f, token) + after;
  }
}
