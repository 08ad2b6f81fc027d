/** Rendering a unit template: nine replacements, one after the other, over the whole text. */
module Render {
  import opened Text
  import opened Paths

  datatype Token = User | Uid | Home | MountUser | Mount | SocketUser | Socket | ClientId | Bin

  function NameOf(t: Token): (name: string)
    ensures name != "" && Lacks(name, '@') && forall i :: 0 <= i < |name| ==> NameChar(name[i])
  {
    match t
    case User => "USER"
    case Uid => "UID"
    case Home => "HOME"
    case MountUser => "MOUNT_USER"
    case Mount => "MOUNT"
    case SocketUser => "SOCKET_USER"
    case Socket => "SOCKET"
    case ClientId => "CLIENT_ID"
    case Bin => "BIN"
  }

  predicate NameChar(c: char) {
    'A' <= c <= 'Z' || c == '_'
  }

  /** The order the replacements are made in. */
  const ORDER: seq<Token> := [User, Uid, Home, MountUser, Mount, SocketUser, Socket, ClientId, Bin]

  function Marked(t: Token): string {
    "@" + NameOf(t) + "@"
  }

  /** `str::replace`: leftmost occurrences, none overlapping. */
  function ReplaceAll(s: string, pattern: string, value: string): string
    requires pattern != ""
    decreases |s|
  {
    if |s| < |pattern| then s
    else if pattern <= s then value + ReplaceAll(s[|pattern|..], pattern, value)
    else [s[0]] + ReplaceAll(s[1..], pattern, value)
  }

  /** A token and the literal text after it. */
  datatype Piece = Piece(token: Token, after: string)

  /** Literal text interrupted by tokens. */
  datatype Template = Template(head: string, rest: seq<Piece>)

  function TextFrom(rest: seq<Piece>): string {
    if rest == [] then "" else Marked(rest[0].token) + rest[0].after + TextFrom(rest[1..])
  }

  function TextOf(t: Template): string {
    t.head + TextFrom(t.rest)
  }

  predicate PlainFrom(rest: seq<Piece>) {
    forall i :: 0 <= i < |rest| ==> Lacks(rest[i].after, '@')
  }

  /** No literal part contains the mark. */
  predicate Plain(t: Template) {
    Lacks(t.head, '@') && PlainFrom(t.rest)
  }

  // ---- one replacement, as it is meant ----

  /** The text that joins the literal before, and the pieces that remain. */
  function SubstFrom(rest: seq<Piece>, token: Token, value: string): (string, seq<Piece>) {
    if rest == [] then ("", []) else
      var (more, pieces) := SubstFrom(rest[1..], token, value);
      if rest[0].token == token then (value + rest[0].after + more, pieces)
      else ("", [Piece(rest[0].token, rest[0].after + more)] + pieces)
  }

  function Subst(t: Template, token: Token, value: string): Template {
    var (more, pieces) := SubstFrom(t.rest, token, value);
    Template(t.head + more, pieces)
  }

  /** Literal text between two tokens that reads exactly like the name being replaced, after a token
      that stays: the marks around it belong to its neighbours. */
  predicate Confused(rest: seq<Piece>, token: Token) {
    exists i :: 0 <= i < |rest| - 1 && rest[i].token != token && rest[i].after == NameOf(token)
  }

  lemma {:induction false} SkipPlain(plain: string, s: string, pattern: string, value: string)
    requires Lacks(plain, '@') && pattern != "" && pattern[0] == '@'
    ensures ReplaceAll(plain + s, pattern, value) == plain + ReplaceAll(s, pattern, value)
  {
    var text := plain + s;
    if plain == "" {
      assert text == s;
      assert "" + ReplaceAll(s, pattern, value) == ReplaceAll(s, pattern, value);
    } else {
      assert text[1..] == plain[1..] + s;
      assert text[0] == plain[0] && plain == [plain[0]] + plain[1..];
      SkipPlain(plain[1..], s, pattern, value);
      Assoc([plain[0]], plain[1..], ReplaceAll(s, pattern, value));
      ShortText(text, pattern, value);
    }
  }

  /** When the pattern is not at the front, one character is copied. */
  lemma ShortText(s: string, pattern: string, value: string)
    requires pattern != "" && s != "" && !(pattern <= s)
    ensures ReplaceAll(s, pattern, value) == [s[0]] + ReplaceAll(s[1..], pattern, value)
  {
    if |s| < |pattern| { assert s == [s[0]] + s[1..]; }
  }

  /** `@name@` is at the front of `@word@more` or `@word` exactly when the word is the name and a mark follows. */
  lemma MarkedAt(token: Token, word: string, more: string)
    requires Lacks(word, '@') && (more == "" || more[0] == '@')
    ensures Marked(token) <= "@" + word + more <==> word == NameOf(token) && more != ""
  {
    hide NameOf;
    FrontWord(NameOf(token), word, more);
  }

  lemma FrontWord(name: string, word: string, more: string)
    requires Lacks(name, '@') && Lacks(word, '@') && (more == "" || more[0] == '@')
    ensures "@" + name + "@" <= "@" + word + more <==> word == name && more != ""
  {
    var s, pattern := "@" + word + more, "@" + name + "@";
    if pattern <= s {
      assert pattern[|name| + 1] == '@' && s[|name| + 1] == '@';
      assert forall i :: 0 <= i < |name| ==> pattern[i + 1] == name[i];
      assert forall i :: 0 <= i < |word| ==> s[i + 1] == word[i];
      assert |word| <= |name|;
      assert more != "" ==> s[|word| + 1] == '@';
      assert word == name;
    }
    if word == name && more != "" {
      assert s == pattern + more[1..];
    }
  }

  /** A mark and a word that do not begin a match are copied. */
  lemma KeepWord(word: string, tail: string, pattern: string, value: string)
    requires Lacks(word, '@') && pattern != "" && pattern[0] == '@' && !(pattern <= "@" + word + tail)
    ensures ReplaceAll("@" + word + tail, pattern, value) == ("@" + word) + ReplaceAll(tail, pattern, value)
  {
    hide ReplaceAll;
    var s := "@" + word + tail;
    ShortText(s, pattern, value);
    assert s[1..] == word + tail;
    SkipPlain(word, tail, pattern, value);
    Assoc("@", word, ReplaceAll(tail, pattern, value));
  }

  function First(rest: seq<Piece>, token: Token, value: string): string {
    ReplaceAll(TextFrom(rest), Marked(token), value)
  }

  lemma TextStarts(rest: seq<Piece>)
    ensures TextFrom(rest) == "" <==> rest == []
    ensures rest != [] ==> TextFrom(rest)[0] == '@'
  {
  }

  /** A token that is replaced. */
  lemma ReplacedHere(rest: seq<Piece>, token: Token, value: string)
    requires rest != [] && rest[0].token == token && Lacks(rest[0].after, '@')
    ensures First(rest, token, value) == value + rest[0].after + First(rest[1..], token, value)
  {
    var tail := rest[0].after + TextFrom(rest[1..]);
    Assoc(Marked(token), rest[0].after, TextFrom(rest[1..]));
    assert (Marked(token) + tail)[|Marked(token)|..] == tail;
    SkipPlain(rest[0].after, TextFrom(rest[1..]), Marked(token), value);
    Assoc(value, rest[0].after, First(rest[1..], token, value));
  }

  /** A token that stays, up to its closing mark. */
  lemma KeptHere(rest: seq<Piece>, token: Token, value: string)
    requires rest != [] && rest[0].token != token
    ensures First(rest, token, value)
      == ("@" + NameOf(rest[0].token)) + ReplaceAll("@" + rest[0].after + TextFrom(rest[1..]), Marked(token), value)
  {
    hide ReplaceAll, NameOf;
    var name := NameOf(rest[0].token);
    var tail := "@" + rest[0].after + TextFrom(rest[1..]);
    assert TextFrom(rest) == "@" + name + tail;
    MarkedAt(token, name, tail);
    DistinctNames(rest[0].token, token);
    KeepWord(name, tail, Marked(token), value);
  }

  lemma DistinctNames(a: Token, b: Token)
    ensures NameOf(a) == NameOf(b) <==> a == b
  {
    assert |NameOf(User)| == 4 && |NameOf(Home)| == 4 && NameOf(User)[0] != NameOf(Home)[0];
    assert |NameOf(Uid)| == 3 && |NameOf(Bin)| == 3 && NameOf(Uid)[0] != NameOf(Bin)[0];
    assert |NameOf(MountUser)| == 10 && |NameOf(SocketUser)| == 11 && |NameOf(ClientId)| == 9;
    assert |NameOf(Mount)| == 5 && |NameOf(Socket)| == 6;
  }

  /** The literal after a token that stays. */
  lemma LiteralHere(after: string, rest: seq<Piece>, token: Token, value: string)
    requires Lacks(after, '@')
    ensures var s := "@" + after + TextFrom(rest);
      if after == NameOf(token) && rest != [] then
        ReplaceAll(s, Marked(token), value) == value + ReplaceAll(TextFrom(rest)[1..], Marked(token), value)
      else
        ReplaceAll(s, Marked(token), value) == ("@" + after) + First(rest, token, value)
  {
    hide TextFrom;
    var s, pattern, more := "@" + after + TextFrom(rest), Marked(token), TextFrom(rest);
    TextStarts(rest);
    MarkedAt(token, after, more);
    if after == NameOf(token) && rest != [] {
      assert s[|pattern|..] == more[1..] by { hide NameOf; assert s == pattern + more[1..]; }
    } else {
      KeepWord(after, more, pattern, value);
    }
  }

  function MeantFrom(rest: seq<Piece>, token: Token, value: string): string {
    SubstFrom(rest, token, value).0 + TextFrom(SubstFrom(rest, token, value).1)
  }

  lemma MeantStep(rest: seq<Piece>, token: Token, value: string)
    requires rest != []
    ensures MeantFrom(rest, token, value) ==
      if rest[0].token == token then value + rest[0].after + MeantFrom(rest[1..], token, value)
      else ("@" + NameOf(rest[0].token)) + (("@" + rest[0].after) + MeantFrom(rest[1..], token, value))
  {
    hide NameOf;
    var (more, pieces) := SubstFrom(rest[1..], token, value);
    var p := rest[0];
    if p.token == token {
      Assoc(value + p.after, more, TextFrom(pieces));
    } else {
      var piece := Piece(p.token, p.after + more);
      var all := [piece] + pieces;
      assert all[0] == piece && all[1..] == pieces;
      assert TextFrom(all) == Marked(p.token) + (p.after + more) + TextFrom(pieces);
      assert "" + TextFrom(all) == TextFrom(all);
      assert Marked(p.token) + (p.after + more) + TextFrom(pieces)
        == ("@" + NameOf(p.token)) + (("@" + p.after) + (more + TextFrom(pieces)));
    }
  }

  lemma SameTail(prefix: string, a: string, b: string)
    ensures prefix + a == prefix + b <==> a == b
  {
    if prefix + a == prefix + b {
      assert a == (prefix + a)[|prefix|..] && b == (prefix + b)[|prefix|..];
    }
  }

  /** A literal taken for a token leaves a different text behind. */
  lemma ConfusedDiffers(name: string, value: string, rest: seq<Piece>, token: Token, b: string)
    requires rest != [] && Lacks(value, '@')
    ensures value + ReplaceAll(TextFrom(rest)[1..], Marked(token), value) != ("@" + name) + b
  {
    hide ReplaceAll, NameOf;
    var next := NameOf(rest[0].token);
    var tail := "@" + rest[0].after + TextFrom(rest[1..]);
    assert ("@" + next + "@" + rest[0].after + TextFrom(rest[1..]))[1..] == next + ("@" + rest[0].after + TextFrom(rest[1..]));
    hide TextFrom;
    SkipPlain(next, tail, Marked(token), value);
    StartsDifferently(value, next, ReplaceAll(tail, Marked(token), value), "@" + name, b);
  }

  lemma StartsDifferently(value: string, next: string, more: string, marked: string, b: string)
    requires Lacks(value, '@') && next != "" && Lacks(next, '@') && marked != "" && marked[0] == '@'
    ensures value + (next + more) != marked + b
  {
    var made := value + (next + more);
    assert made[0] == if value != "" then value[0] else next[0];
    assert (marked + b)[0] == '@';
  }

  /** One replacement does what is meant exactly when no literal is confused with a token. */
  lemma {:induction false} StageFrom(rest: seq<Piece>, token: Token, value: string)
    requires PlainFrom(rest) && Lacks(value, '@')
    ensures First(rest, token, value) == MeantFrom(rest, token, value) <==> !Confused(rest, token)
  {
    hide First, MeantFrom, NameOf;
    if rest == [] {
      NothingToReplace(token, value);
    } else {
      var p, tail := rest[0], rest[1..];
      StageFrom(tail, token, value);
      MeantStep(rest, token, value);
      assert Confused(rest, token) <==>
        (|rest| > 1 && rest[0].token != token && rest[0].after == NameOf(token)) || Confused(rest[1..], token);
      if p.token == token {
        ReplacedHere(rest, token, value);
        SameTail(value + p.after, First(tail, token, value), MeantFrom(tail, token, value));
      } else {
        KeptHere(rest, token, value);
        LiteralHere(p.after, tail, token, value);
        var here := "@" + NameOf(p.token);
        SameTail(here, ReplaceAll("@" + p.after + TextFrom(tail), Marked(token), value),
                 ("@" + p.after) + MeantFrom(tail, token, value));
        if p.after == NameOf(token) && tail != [] {
          ConfusedDiffers(p.after, value, tail, token, MeantFrom(tail, token, value));
        } else {
          SameTail("@" + p.after, First(tail, token, value), MeantFrom(tail, token, value));
        }
      }
    }
  }

  lemma NothingToReplace(token: Token, value: string)
    ensures First([], token, value) == MeantFrom([], token, value)
  {
  }

  /** `text.replace("@NAME@", value)` is the intended substitution, or not. */
  lemma StageIsExact(t: Template, token: Token, value: string)
    requires Plain(t) && Lacks(value, '@')
    ensures ReplaceAll(TextOf(t), Marked(token), value) == TextOf(Subst(t, token, value)) <==> !Confused(t.rest, token)
  {
    hide NameOf, ReplaceAll, TextFrom, SubstFrom;
    StageFrom(t.rest, token, value);
    SkipPlain(t.head, TextFrom(t.rest), Marked(token), value);
    SameTail(t.head, First(t.rest, token, value), MeantFrom(t.rest, token, value));
    var (more, pieces) := SubstFrom(t.rest, token, value);
    Assoc(t.head, more, TextFrom(pieces));
  }

  // ---- the whole chain ----

  type Values = Token -> string

  /** The chain of replacements, in the order of `stages`. */
  function Chain(text: string, stages: seq<Token>, values: Values): string
    decreases |stages|
  {
    if stages == [] then text
    else Chain(ReplaceAll(text, Marked(stages[0]), values(stages[0])), stages[1..], values)
  }

  function SubstAll(t: Template, stages: seq<Token>, values: Values): Template
    decreases |stages|
  {
    if stages == [] then t else SubstAll(Subst(t, stages[0], values(stages[0])), stages[1..], values)
  }

  /** No stage meets a literal it takes for a token. */
  predicate Safe(t: Template, stages: seq<Token>, values: Values)
    decreases |stages|
  {
    stages == [] || (!Confused(t.rest, stages[0]) && Safe(Subst(t, stages[0], values(stages[0])), stages[1..], values))
  }

  /** Every text on the way is the intended one. */
  predicate Intended(t: Template, text: string, stages: seq<Token>, values: Values)
    decreases |stages|
  {
    text == TextOf(t)
    && (stages == [] || Intended(Subst(t, stages[0], values(stages[0])),
                                 ReplaceAll(text, Marked(stages[0]), values(stages[0])), stages[1..], values))
  }

  predicate PlainValues(values: Values) {
    forall token :: Lacks(values(token), '@')
  }

  lemma {:induction false} SubstFromPlain(rest: seq<Piece>, token: Token, value: string)
    requires PlainFrom(rest) && Lacks(value, '@')
    ensures Lacks(SubstFrom(rest, token, value).0, '@') && PlainFrom(SubstFrom(rest, token, value).1)
  {
    if rest != [] { SubstFromPlain(rest[1..], token, value); }
  }

  lemma SubstPlain(t: Template, token: Token, value: string)
    requires Plain(t) && Lacks(value, '@')
    ensures Plain(Subst(t, token, value))
  {
    SubstFromPlain(t.rest, token, value);
  }

  /** The nine replacements are right at every stage exactly when no stage confuses a literal. */
  lemma {:induction false} ChainIsExact(t: Template, stages: seq<Token>, values: Values)
    requires Plain(t) && PlainValues(values)
    ensures Intended(t, TextOf(t), stages, values) <==> Safe(t, stages, values)
    ensures Safe(t, stages, values) ==> Chain(TextOf(t), stages, values) == TextOf(SubstAll(t, stages, values))
    decreases |stages|
  {
    hide Confused, Subst, TextOf, ReplaceAll, Marked, Plain;
    if stages != [] {
      var token, value := stages[0], values(stages[0]);
      StageIsExact(t, token, value);
      SubstPlain(t, token, value);
      ChainIsExact(Subst(t, token, value), stages[1..], values);
    }
  }

  // ---- the simultaneous substitution ----

  function AtOnceFrom(rest: seq<Piece>, values: Values): string {
    if rest == [] then "" else values(rest[0].token) + rest[0].after + AtOnceFrom(rest[1..], values)
  }

  function AtOnce(t: Template, values: Values): string {
    t.head + AtOnceFrom(t.rest, values)
  }

  lemma {:induction false} AtOnceSubstFrom(rest: seq<Piece>, token: Token, values: Values)
    ensures var (more, pieces) := SubstFrom(rest, token, values(token));
      more + AtOnceFrom(pieces, values) == AtOnceFrom(rest, values)
  {
    if rest != [] {
      AtOnceSubstFrom(rest[1..], token, values);
      var p := rest[0];
      var (more, pieces) := SubstFrom(rest[1..], token, values(token));
      if p.token == token {
        Assoc(values(token) + p.after, more, AtOnceFrom(pieces, values));
      } else {
        var all := [Piece(p.token, p.after + more)] + pieces;
        assert all[1..] == pieces;
        assert AtOnceFrom(all, values) == values(p.token) + (p.after + more) + AtOnceFrom(pieces, values);
        assert "" + AtOnceFrom(all, values) == AtOnceFrom(all, values);
      }
    }
  }

  lemma AtOnceSubst(t: Template, token: Token, values: Values)
    ensures AtOnce(Subst(t, token, values(token)), values) == AtOnce(t, values)
  {
    hide SubstFrom, AtOnceFrom;
    AtOnceSubstFrom(t.rest, token, values);
    var (more, pieces) := SubstFrom(t.rest, token, values(token));
    Assoc(t.head, more, AtOnceFrom(pieces, values));
  }

  predicate Mentions(rest: seq<Piece>, token: Token) {
    exists i :: 0 <= i < |rest| && rest[i].token == token
  }

  lemma {:induction false} SubstFromMentions(rest: seq<Piece>, token: Token, value: string, other: Token)
    ensures Mentions(SubstFrom(rest, token, value).1, other) <==> other != token && Mentions(rest, other)
  {
    if rest != [] {
      var (more, pieces) := SubstFrom(rest[1..], token, value);
      SubstFromMentions(rest[1..], token, value, other);
      MentionsStep(rest, other);
      if rest[0].token != token {
        var all := [Piece(rest[0].token, rest[0].after + more)] + pieces;
        assert all[1..] == pieces;
        MentionsStep(all, other);
      }
    }
  }

  lemma MentionsStep(rest: seq<Piece>, other: Token)
    requires rest != []
    ensures Mentions(rest, other) <==> rest[0].token == other || Mentions(rest[1..], other)
  {
    var tail := rest[1..];
    if Mentions(rest, other) {
      var i :| 0 <= i < |rest| && rest[i].token == other;
      assert i > 0 ==> tail[i - 1] == rest[i];
    }
    assert forall i :: 0 <= i < |tail| ==> tail[i] == rest[i + 1];
  }

  /** When every token of the template is among the stages, nothing but literal text is left. */
  lemma {:induction false} AllReplaced(t: Template, stages: seq<Token>, values: Values)
    requires forall token :: Mentions(t.rest, token) ==> token in stages
    ensures SubstAll(t, stages, values) == Template(AtOnce(t, values), [])
    decreases |stages|
  {
    hide AtOnceFrom, SubstFrom, Mentions;
    if stages == [] {
      assert t.rest == [] by { if t.rest != [] { MentionsStep(t.rest, t.rest[0].token); } }
      assert AtOnceFrom([], values) == "" && t.head + "" == t.head by { NothingAtOnce(values); }
    } else {
      var token, value := stages[0], values(stages[0]);
      AtOnceSubst(t, token, values);
      forall other | Mentions(Subst(t, token, value).rest, other) ensures other in stages[1..] {
        SubstFromMentions(t.rest, token, value, other);
        assert stages == [stages[0]] + stages[1..];
      }
      AllReplaced(Subst(t, token, value), stages[1..], values);
    }
  }

  lemma NothingAtOnce(values: Values)
    ensures AtOnceFrom([], values) == ""
  {
  }

  // ---- a condition on the template alone ----

  /** A character no token name contains. */
  predicate HasOtherChar(s: string) {
    exists i :: 0 <= i < |s| && !NameChar(s[i])
  }

  /** Between any two tokens stands text that cannot be part of a name: a slash, a blank, an `=`. */
  predicate Separated(rest: seq<Piece>) {
    forall i :: 0 <= i < |rest| - 1 ==> HasOtherChar(rest[i].after)
  }

  lemma {:induction false} SubstFromSeparated(rest: seq<Piece>, token: Token, value: string)
    requires Separated(rest)
    ensures Separated(SubstFrom(rest, token, value).1)
    ensures SubstFrom(rest, token, value).1 != [] ==> rest != []
    // What joins the literal before lets nothing be confused there either.
    ensures rest != [] && rest[0].token == token && SubstFrom(rest, token, value).1 != [] ==>
      HasOtherChar(SubstFrom(rest, token, value).0)
  {
    if rest != [] {
      var tail := rest[1..];
      assert forall i :: 0 <= i < |tail| ==> tail[i] == rest[i + 1];
      SubstFromSeparated(tail, token, value);
      var (more, pieces) := SubstFrom(tail, token, value);
      if pieces != [] {
        assert HasOtherChar(rest[0].after);
        WiderHasOtherChar("", rest[0].after, more);
        WiderHasOtherChar(value, rest[0].after, more);
        assert "" + rest[0].after + more == rest[0].after + more;
      }
      if rest[0].token != token {
        var all := [Piece(rest[0].token, rest[0].after + more)] + pieces;
        assert forall i :: 0 < i < |all| ==> all[i] == pieces[i - 1];
      }
    }
  }

  lemma WiderHasOtherChar(a: string, s: string, b: string)
    requires HasOtherChar(s)
    ensures HasOtherChar(a + s + b)
  {
    var i :| 0 <= i < |s| && !NameChar(s[i]);
    assert (a + s + b)[|a| + i] == s[i];
  }

  lemma {:induction false} SeparatedIsSafe(t: Template, stages: seq<Token>, values: Values)
    requires Separated(t.rest)
    ensures Safe(t, stages, values)
    decreases |stages|
  {
    hide SubstFrom;
    if stages != [] {
      var token := stages[0];
      assert !Confused(t.rest, token) by {
        assert forall i :: 0 <= i < |NameOf(token)| ==> NameChar(NameOf(token)[i]);
      }
      SubstFromSeparated(t.rest, token, values(token));
      SeparatedIsSafe(Subst(t, token, values(token)), stages[1..], values);
    }
  }

  /** For such a template the chain is the simultaneous substitution, in whatever order the tokens
      are taken, and no mark is left. */
  lemma RenderIsSimultaneous(t: Template, stages: seq<Token>, values: Values)
    requires Plain(t) && PlainValues(values) && Separated(t.rest)
    requires forall token :: Mentions(t.rest, token) ==> token in stages
    ensures Chain(TextOf(t), stages, values) == AtOnce(t, values)
    ensures Lacks(Chain(TextOf(t), stages, values), '@')
  {
    hide Chain, Safe, Intended, SubstAll, Separated;
    SeparatedIsSafe(t, stages, values);
    ChainIsExact(t, stages, values);
    AllReplaced(t, stages, values);
    AtOncePlain(t.rest, values);
  }

  lemma {:induction false} AtOncePlain(rest: seq<Piece>, values: Values)
    requires PlainFrom(rest) && PlainValues(values)
    ensures Lacks(AtOnceFrom(rest, values), '@')
  {
    if rest != [] {
      AtOncePlain(rest[1..], values);
      assert Lacks(values(rest[0].token), '@');
    }
  }

  lemma InOrder(token: Token)
    ensures token in ORDER
  {
    match token
    case User => assert ORDER[0] == User;
    case Uid => assert ORDER[1] == Uid;
    case Home => assert ORDER[2] == Home;
    case MountUser => assert ORDER[3] == MountUser;
    case Mount => assert ORDER[4] == Mount;
    case SocketUser => assert ORDER[5] == SocketUser;
    case Socket => assert ORDER[6] == Socket;
    case ClientId => assert ORDER[7] == ClientId;
    case Bin => assert ORDER[8] == Bin;
  }

  /** `render` itself takes them in the fixed order. */
  lemma RenderOrder(t: Template, values: Values)
    requires Plain(t) && PlainValues(values) && Separated(t.rest)
    ensures Chain(TextOf(t), ORDER, values) == AtOnce(t, values)
  {
    hide Chain, AtOnce, TextOf;
    forall token ensures token in ORDER { InOrder(token); }
    RenderIsSimultaneous(t, ORDER, values);
  }

  /** Marks in neither values nor literals are not enough. A literal that reads like a token name between two
      tokens is taken for that token when its turn comes before that of both, and both neighbours are lost:
      `@HOME@USER@HOME@`, for one. */
  lemma LiteralTakenForToken(a: Token, token: Token, b: Token, value: string)
    requires a != token && Lacks(value, '@')
    ensures var t := Template("", [Piece(a, NameOf(token)), Piece(b, "")]);
      && Plain(t) && Confused(t.rest, token)
      && ReplaceAll(TextOf(t), Marked(token), value) == ("@" + NameOf(a)) + (value + (NameOf(b) + "@"))
  {
    hide NameOf, ReplaceAll;
    var second := [Piece(b, "")];
    var rest := [Piece(a, NameOf(token)), Piece(b, "")];
    assert rest[1..] == second && second[1..] == [];
    assert "" + TextFrom(rest) == TextFrom(rest);
    KeptHere(rest, token, value);
    LiteralHere(NameOf(token), second, token, value);
    assert TextFrom(second)[1..] == NameOf(b) + "@";
    SkipPlain(NameOf(b), "@", Marked(token), value);
    LoneMark(token, value);
    assert rest[0].after == NameOf(token);
  }

  lemma LoneMark(token: Token, value: string)
    ensures ReplaceAll("@", Marked(token), value) == "@"
  {
    hide NameOf;
  }

  // ---- the values ----

  datatype Facts = Facts(user: string, uid: nat, home: Path, mount: Path, socket: Path, clientId: string, bin: Path)

  /** A path as a user unit names it: through the specifier when it lies where that points. */
  function UserForm(specifier: string, base: Path, p: Path): string {
    if base <= p then specifier + "/" + Join(p[|base|..], '/') else PathText(p)
  }

  function RuntimeDir(f: Facts): Path {
    ["run", "user", Decimal(f.uid)]
  }

  function ValueOf(f: Facts, t: Token): string {
    match t
    case User => f.user
    case Uid => Decimal(f.uid)
    case Home => PathText(f.home)
    case MountUser => UserForm("%h", f.home, f.mount)
    case Mount => PathText(f.mount)
    case SocketUser => UserForm("%t", RuntimeDir(f), f.socket)
    case Socket => PathText(f.socket)
    case ClientId => f.clientId
    case Bin => PathText(f.bin)
  }

  /** For facts without a mark, the unit text is the template with every token's value in its place. */
  lemma RenderedText(t: Template, f: Facts)
    requires Plain(t) && Separated(t.rest) && forall token :: Lacks(ValueOf(f, token), '@')
    ensures Chain(TextOf(t), ORDER, token => ValueOf(f, token)) == AtOnce(t, token => ValueOf(f, token))
  {
    hide ValueOf, Chain, AtOnce, TextOf;
    RenderOrder(t, token => ValueOf(f, token));
  }

  /** What the user manager makes of a leading specifier. */
  function Expand(text: string, specifier: string, value: string): string {
    if specifier <= text then value + text[|specifier|..] else text
  }

  /** The specifier form expands to the path itself, except for the base directory itself and for
      a base that is the root of the file system. */
  lemma UserFormExpandsBack(specifier: string, base: Path, p: Path)
    requires specifier != "" && specifier[0] == '%'
    ensures Expand(UserForm(specifier, base, p), specifier, PathText(base)) == PathText(p)
      <==> !(base <= p) || (base != [] && base != p)
  {
    hide Join;
    if base <= p {
      var rest := p[|base|..];
      assert p == base + rest;
      assert UserForm(specifier, base, p)[|specifier|..] == "/" + Join(rest, '/');
      assert Expand(UserForm(specifier, base, p), specifier, PathText(base)) == PathText(base) + ("/" + Join(rest, '/'));
      if base == [] {
        assert rest == p;
        EmptyJoin('/');
      } else if rest == [] {
        assert base == p;
        EmptyJoin('/');
      } else {
        JoinAppend(base, rest, '/');
      }
    } else {
      assert PathText(p)[0] == '/';
    }
  }
}
