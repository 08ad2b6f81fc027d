/** String operations of the Rust standard library that the components share.
    A string is a sequence of Unicode scalar values. */
module Text {
  datatype Option<+T> = None | Some(value: T)

  /** The Unicode White_Space property, which `split_whitespace` and `trim` use. */
  predicate IsWhite(c: char) {
    || '\t' <= c <= '\r'
    || c in {' ', '\U{0085}', '\U{00A0}', '\U{1680}', '\U{2028}', '\U{2029}', '\U{202F}', '\U{205F}', '\U{3000}'}
    || '\U{2000}' <= c <= '\U{200A}'
  }

  /** By their code points. */
  lemma WhiteExactly(c: char)
    ensures var v := c as int;
      IsWhite(c) <==>
        || 9 <= v <= 13 || v == 32 || v == 0x85 || v == 0xA0 || v == 0x1680 || 0x2000 <= v <= 0x200A
        || v == 0x2028 || v == 0x2029 || v == 0x202F || v == 0x205F || v == 0x3000
  {
  }

  predicate NoWhite(s: string) {
    forall i :: 0 <= i < |s| ==> !IsWhite(s[i])
  }

  /** A token as `split_whitespace` produces it. */
  predicate IsWord(s: string) {
    s != "" && NoWhite(s)
  }

  predicate AllWords(words: seq<string>) {
    forall i :: 0 <= i < |words| ==> IsWord(words[i])
  }

  /** Length of the longest prefix without white space. */
  function WordLength(s: string): (n: nat)
    ensures n <= |s| && forall i :: 0 <= i < n ==> !IsWhite(s[i])
    ensures n < |s| ==> IsWhite(s[n])
  {
    if s == "" || IsWhite(s[0]) then 0 else 1 + WordLength(s[1..])
  }

  function SplitWhitespace(s: string): (words: seq<string>)
    ensures AllWords(words)
    ensures forall i :: 0 <= i < |words| ==> |words[i]| <= |s|
  {
    if s == "" then []
    else if IsWhite(s[0]) then SplitWhitespace(s[1..])
    else
      var n := WordLength(s);
      [s[..n]] + SplitWhitespace(s[n..])
  }

  /** `parts.join(sep)`. */
  function Join(parts: seq<string>, sep: char): (s: string)
  {
    if parts == [] then ""
    else if |parts| == 1 then parts[0]
    else parts[0] + [sep] + Join(parts[1..], sep)
  }

  lemma {:induction false} WordLengthOf(word: string, rest: string)
    requires NoWhite(word) && (rest == "" || IsWhite(rest[0]))
    ensures WordLength(word + rest) == |word|
  {
    if word == "" {
      assert word + rest == rest;
    } else {
      assert (word + rest)[1..] == word[1..] + rest;
      WordLengthOf(word[1..], rest);
    }
  }

  /** A word in front of white space is the first token; the rest is split on. */
  lemma SplitWordFirst(word: string, rest: string)
    requires IsWord(word) && (rest == "" || IsWhite(rest[0]))
    ensures SplitWhitespace(word + rest) == [word] + SplitWhitespace(rest)
  {
    WordLengthOf(word, rest);
    var s := word + rest;
    assert s[0] == word[0];
    assert s[..|word|] == word && s[|word|..] == rest;
  }

  lemma {:induction false} SplitJoin(words: seq<string>, sep: char)
    requires AllWords(words) && IsWhite(sep)
    ensures SplitWhitespace(Join(words, sep)) == words
  {
    if |words| == 1 {
      SplitWordFirst(words[0], "");
      assert words[0] + "" == words[0];
    } else if |words| > 1 {
      var rest := [sep] + Join(words[1..], sep);
      SplitJoin(words[1..], sep);
      SplitWordFirst(words[0], rest);
      assert rest[1..] == Join(words[1..], sep);
      assert words[0] + [sep] + Join(words[1..], sep) == words[0] + rest;
    }
  }

  lemma SplitUnfolds(s: string)
    ensures s == "" ==> SplitWhitespace(s) == []
    ensures s != "" && IsWhite(s[0]) ==> SplitWhitespace(s) == SplitWhitespace(s[1..])
  {
  }

  /** Splitting on both sides of a place with white space. */
  lemma {:induction false} SplitSpaced(s: string, t: string)
    requires s == "" || t == "" || IsWhite(s[|s| - 1]) || IsWhite(t[0])
    ensures SplitWhitespace(s + t) == SplitWhitespace(s) + SplitWhitespace(t)
    decreases |s|
  {
    hide IsWhite, SplitWhitespace;
    SplitUnfolds(s);
    SplitUnfolds(s + t);
    if s == "" {
      assert s + t == t;
    } else if IsWhite(s[0]) {
      assert (s + t)[1..] == s[1..] + t;
      SplitSpaced(s[1..], t);
    } else {
      var w, more := s[..WordLength(s)], s[WordLength(s)..];
      assert s == w + more;
      Assoc(w, more, t);
      if more == "" {
        assert !IsWhite(s[|s| - 1]);
        SplitUnfolds("");
        assert more + t == t;
      } else {
        SplitSpaced(more, t);
        assert (more + t)[0] == more[0];
      }
      SplitWordFirst(w, more + t);
      SplitWordFirst(w, more);
    }
  }

  /** A character right after the last word lengthens it. */
  lemma {:induction false} SplitGlued(s: string, c: char)
    requires s != "" && !IsWhite(s[|s| - 1]) && !IsWhite(c)
    ensures var f := SplitWhitespace(s);
      f != [] && SplitWhitespace(s + [c]) == f[..|f| - 1] + [f[|f| - 1] + [c]]
    decreases |s|
  {
    hide IsWhite, SplitWhitespace;
    SplitUnfolds(s);
    SplitUnfolds(s + [c]);
    if IsWhite(s[0]) {
      assert (s + [c])[1..] == s[1..] + [c];
      SplitGlued(s[1..], c);
    } else {
      var w, more := s[..WordLength(s)], s[WordLength(s)..];
      assert s == w + more;
      if more == "" {
        SplitUnfolds("");
        SplitWordFirst(s, "");
        SplitWordFirst(s + [c], "");
        assert s + "" == s && (s + [c]) + "" == s + [c];
      } else {
        Assoc(w, more, [c]);
        SplitGlued(more, c);
        SplitWordFirst(w, more + [c]);
        SplitWordFirst(w, more);
      }
    }
  }

  predicate Lacks(s: string, c: char) {
    forall i :: 0 <= i < |s| ==> s[i] != c
  }

  /** Index of the first `c`, or the length. */
  function IndexOf(s: string, c: char): (n: nat)
    ensures n <= |s| && forall i :: 0 <= i < n ==> s[i] != c
    ensures n < |s| ==> s[n] == c
  {
    if s == "" || s[0] == c then 0 else 1 + IndexOf(s[1..], c)
  }

  lemma {:induction false} IndexOfIn(head: string, c: char, tail: string)
    requires Lacks(head, c)
    ensures IndexOf(head + [c] + tail, c) == |head|
  {
    var s := head + [c] + tail;
    if head == "" {
      assert s[0] == c;
    } else {
      assert s[1..] == head[1..] + [c] + tail;
      IndexOfIn(head[1..], c, tail);
    }
  }

  /** `s.split_once(c)`. */
  function SplitOnce(s: string, c: char): Option<(string, string)> {
    var n := IndexOf(s, c);
    if n < |s| then Some((s[..n], s[n + 1..])) else None
  }

  lemma SplitOnceAt(key: string, c: char, value: string)
    requires Lacks(key, c)
    ensures SplitOnce(key + [c] + value, c) == Some((key, value))
  {
    IndexOfIn(key, c, value);
    var s := key + [c] + value;
    assert s[..|key|] == key && s[|key| + 1..] == value;
  }

  /** `s.split(c)`: always at least one piece. */
  function Split(s: string, c: char): (parts: seq<string>)
    ensures parts != []
    decreases |s|
  {
    var n := IndexOf(s, c);
    if n < |s| then [s[..n]] + Split(s[n + 1..], c) else [s]
  }

  lemma SplitHead(head: string, c: char, tail: string)
    requires Lacks(head, c)
    ensures Split(head + [c] + tail, c) == [head] + Split(tail, c)
  {
    IndexOfIn(head, c, tail);
    var s := head + [c] + tail;
    assert s[..|head|] == head && s[|head| + 1..] == tail;
  }

  /** Splitting on both sides of a separator. */
  lemma {:induction false} SplitAt(front: string, c: char, back: string)
    ensures Split(front + [c] + back, c) == Split(front, c) + Split(back, c)
    decreases |front|
  {
    hide Split;
    var n := IndexOf(front, c);
    if n == |front| {
      SplitHead(front, c, back);
      SplitWhole(front, c);
    } else {
      var head, more := front[..n], front[n + 1..];
      SplitAt(more, c, back);
      SplitHead(head, c, more + [c] + back);
      SplitHead(head, c, more);
      assert front == head + [c] + more;
      assert front + [c] + back == head + [c] + (more + [c] + back);
      Assoc([head], Split(more, c), Split(back, c));
    }
  }

  lemma SplitWhole(s: string, c: char)
    requires Lacks(s, c)
    ensures Split(s, c) == [s]
  {
    assert IndexOf(s, c) == |s|;
  }

  lemma {:induction false} SplitJoinOn(parts: seq<string>, c: char)
    requires parts != [] && forall i :: 0 <= i < |parts| ==> Lacks(parts[i], c)
    ensures Split(Join(parts, c), c) == parts
  {
    if |parts| == 1 {
    } else {
      var rest := Join(parts[1..], c);
      SplitJoinOn(parts[1..], c);
      IndexOfIn(parts[0], c, rest);
      var s := parts[0] + [c] + rest;
      assert s[..|parts[0]|] == parts[0] && s[|parts[0]| + 1..] == rest;
    }
  }

  predicate StartsWith(s: string, prefix: string) {
    prefix <= s
  }

  predicate EndsWith(s: string, suffix: string) {
    |suffix| <= |s| && s[|s| - |suffix|..] == suffix
  }

  /** `s.trim()`. */
  function TrimStart(s: string): (t: string)
    ensures |t| <= |s|
  {
    if s != "" && IsWhite(s[0]) then TrimStart(s[1..]) else s
  }

  function TrimEnd(s: string): (t: string)
    ensures t <= s
  {
    if s != "" && IsWhite(s[|s| - 1]) then TrimEnd(s[..|s| - 1]) else s
  }

  function Trim(s: string): (t: string)
    ensures |t| <= |s|
  {
    TrimEnd(TrimStart(s))
  }

  lemma TrimTight(s: string)
    requires s != "" && !IsWhite(s[0]) && !IsWhite(s[|s| - 1])
    ensures Trim(s) == s
  {
    hide IsWhite;
  }

  lemma {:induction false} TrimEndFields(s: string)
    ensures SplitWhitespace(TrimEnd(s)) == SplitWhitespace(s)
    ensures TrimEnd(s) != "" ==> TrimEnd(s)[0] == s[0]
  {
    if s != "" && IsWhite(s[|s| - 1]) {
      var front, last := s[..|s| - 1], s[|s| - 1..];
      TrimEndFields(front);
      SplitSpaced(front, last);
      assert s == front + last && last[1..] == "";
    }
  }

  lemma {:induction false} TrimStartFields(s: string)
    ensures SplitWhitespace(TrimStart(s)) == SplitWhitespace(s)
    ensures TrimStart(s) != "" ==> !IsWhite(TrimStart(s)[0])
  {
    if s != "" && IsWhite(s[0]) { TrimStartFields(s[1..]); }
  }

  /** Trimming keeps the words, and what is left starts with the first of them. */
  lemma TrimFields(s: string)
    ensures SplitWhitespace(Trim(s)) == SplitWhitespace(s)
    ensures Trim(s) == "" <==> SplitWhitespace(s) == []
    ensures Trim(s) != "" ==> SplitWhitespace(s)[0][0] == Trim(s)[0]
  {
    TrimStartFields(s);
    TrimEndFields(TrimStart(s));
  }

  /** A line without the carriage return that preceded its newline. */
  function Chomp(line: string): string {
    if line != "" && line[|line| - 1] == '\r' then line[..|line| - 1] else line
  }

  /** `text.lines()`: newline-terminated pieces, a `\r` before the newline removed,
      and no empty last piece. */
  function Lines(text: string): (lines: seq<string>)
    decreases |text|
  {
    if text == "" then [] else
      var n := IndexOf(text, '\n');
      if n < |text| then [Chomp(text[..n])] + Lines(text[n + 1..]) else [text]
  }

  lemma LinesFirst(line: string, more: string)
    requires Lacks(line, '\n')
    ensures Lines(line + ['\n'] + more) == [Chomp(line)] + Lines(more)
  {
    IndexOfIn(line, '\n', more);
    var s := line + ['\n'] + more;
    assert s[..|line|] == line && s[|line| + 1..] == more;
  }

  lemma LineAlone(line: string)
    requires Lacks(line, '\n')
    ensures Lines("") == [] && (line != "" ==> Lines(line) == [line])
  {
    assert IndexOf(line, '\n') == |line|;
  }

  /** Both kinds of line end separate lines and belong to none of them; a last line needs no end. */
  lemma LinesExactly(line: string, more: string)
    requires Lacks(line, '\n')
    ensures Lines("") == [] && (line != "" ==> Lines(line) == [line])
    ensures (line == "" || line[|line| - 1] != '\r') ==> Lines(line + "\n" + more) == [line] + Lines(more)
    ensures Lines(line + "\r\n" + more) == [line] + Lines(more)
  {
    hide Lines;
    LineAlone(line);
    LinesFirst(line, more);
    var ended := line + "\r";
    LinesFirst(ended, more);
    assert ended + ['\n'] + more == line + "\r\n" + more;
    assert Chomp(ended) == line;
  }

  lemma Assoc<T>(a: seq<T>, b: seq<T>, c: seq<T>)
    ensures a + b + c == a + (b + c)
  {
  }

  lemma LinesAppendStep(line: string, rest: string, more: string)
    requires Lacks(line, '\n')
    requires Lines(rest + more) == Lines(rest) + Lines(more)
    ensures Lines(line + ['\n'] + rest + more) == Lines(line + ['\n'] + rest) + Lines(more)
  {
    LinesFirst(line, rest);
    LinesFirst(line, rest + more);
    Assoc(line + ['\n'], rest, more);
    Assoc([Chomp(line)], Lines(rest), Lines(more));
  }

  /** Text that ends in a newline contributes its own lines, unchanged by what follows. */
  lemma {:induction false} LinesAppend(text: string, more: string)
    requires text == "" || text[|text| - 1] == '\n'
    ensures Lines(text + more) == Lines(text) + Lines(more)
    decreases |text|
  {
    if text == "" {
      assert text + more == more;
    } else {
      var n := IndexOf(text, '\n');
      assert n < |text|;
      var line, rest := text[..n], text[n + 1..];
      assert text == line + ['\n'] + rest;
      LinesAppend(rest, more);
      LinesAppendStep(line, rest, more);
    }
  }

  const U64_LIMIT: nat := 0x1_0000_0000_0000_0000

  predicate IsDigit(c: char) {
    '0' <= c <= '9'
  }

  /** The decimal text of a number, as `Display` prints it. */
  function Decimal(n: nat): (s: string)
    ensures s != "" && forall i :: 0 <= i < |s| ==> IsDigit(s[i])
  {
    if n < 10 then [('0' as int + n) as char] else Decimal(n / 10) + [('0' as int + n % 10) as char]
  }

  function DigitsValue(s: string): (n: Option<nat>) {
    if s == "" then Some(0) else
      var last := s[|s| - 1];
      var front := DigitsValue(s[..|s| - 1]);
      if front.Some? && IsDigit(last) then Some(front.value * 10 + (last as int - '0' as int)) else None
  }

  /** `s.parse::<u64>()`: an optional plus sign, at least one digit, no overflow. */
  function ParseU64(s: string): (n: Option<nat>)
    ensures n.Some? ==> n.value < U64_LIMIT
  {
    var digits := if s != "" && s[0] == '+' then s[1..] else s;
    if digits == "" then None else
      var value := DigitsValue(digits);
      if value.Some? && value.value < U64_LIMIT then value else None
  }

  lemma {:induction false} DigitsValueDecimal(n: nat)
    ensures DigitsValue(Decimal(n)) == Some(n)
  {
    var s := Decimal(n);
    if n < 10 {
      assert s[..|s| - 1] == "";
      assert DigitsValue("") == Some(0);
    } else {
      DigitsValueDecimal(n / 10);
      assert s[..|s| - 1] == Decimal(n / 10);
    }
  }

  lemma ParseDecimal(n: nat)
    requires n < U64_LIMIT
    ensures ParseU64(Decimal(n)) == Some(n)
  {
    ParseDecimalExactly(n);
  }

  /** A printed number is read when it fits 64 bits, with a plus sign in front or without. */
  lemma ParseDecimalExactly(n: nat)
    ensures ParseU64(Decimal(n)) == if n < 18446744073709551616 then Some(n) else None
    ensures ParseU64("+" + Decimal(n)) == ParseU64(Decimal(n))
  {
    DigitsValueDecimal(n);
    assert IsDigit(Decimal(n)[0]);
    assert ("+" + Decimal(n))[1..] == Decimal(n);
  }

  /** Nothing else is a number. */
  lemma {:induction false} OnlyDigitsParse(s: string)
    ensures DigitsValue(s).Some? <==> forall i :: 0 <= i < |s| ==> IsDigit(s[i])
  {
    if s != "" {
      var front := s[..|s| - 1];
      OnlyDigitsParse(front);
      assert forall i :: 0 <= i < |front| ==> front[i] == s[i];
    }
  }
}
