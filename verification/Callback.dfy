/** The browser's redirect: reading its request line from a stream, and what is done with it. */
module Callback {
  import opened Text
  import opened Utf8

  const LIMIT := 16384
  const CHUNK := 1024

  type Bytes = seq<Byte>

  const LF: Byte := 10
  const END: Bytes := [13, 10, 13, 10]

  datatype ReadError = BrokenStream | ClosedEarly | TooLarge | NotText | NotGet | NoTarget | Malformed

  datatype Result = Target(target: string) | Failed(error: ReadError)

  /** One `read`: some bytes, the end of the stream, or an error. */
  datatype Read = Data(bytes: Bytes) | Closed | Broken

  predicate IsRead(r: Read) {
    r.Data? ==> 1 <= |r.bytes| <= CHUNK
  }

  // ---- the request line ----

  function FirstLine(request: Bytes): Bytes {
    if request == [] || request[0] == LF then [] else [request[0]] + FirstLine(request[1..])
  }

  /** `trim_end_matches('\r')`. */
  function DropReturns(s: string): string {
    if s != "" && s[|s| - 1] == '\r' then DropReturns(s[..|s| - 1]) else s
  }

  function ParseLine(line: string): Result {
    var words := SplitWhitespace(line);
    if |words| == 0 || words[0] != "GET" then Failed(NotGet)
    else if |words| == 1 then Failed(NoTarget)
    else if |words| != 3 || words[2] != "HTTP/1.1" then Failed(Malformed)
    else Target(words[1])
  }

  function Parse(request: Bytes): Result {
    var text := Utf8.Decode(FirstLine(request));
    if text.None? then Failed(NotText) else ParseLine(DropReturns(text.value))
  }

  // ---- reading ----

  predicate EndsAt(request: Bytes, i: nat) {
    i + 4 <= |request| && request[i..i + 4] == END
  }

  /** The blank line is in. */
  predicate Complete(request: Bytes) {
    exists i :: 0 <= i <= |request| && EndsAt(request, i)
  }

  /** What the reader makes of the chunks it gets, and of the stream's end should it come to that. */
  function ReadFrom(request: Bytes, chunks: seq<Bytes>, end: ReadError): Result
    decreases |chunks|
  {
    if Complete(request) then Parse(request)
    else if chunks == [] then Failed(end)
    else if |request + chunks[0]| > LIMIT then Failed(TooLarge)
    else ReadFrom(request + chunks[0], chunks[1..], end)
  }

  function EndOf(r: Read): ReadError {
    if r.Broken? then BrokenStream else ClosedEarly
  }

  function Chunks(next: nat -> Read, n: nat): (r: seq<Bytes>)
    requires forall i :: 0 <= i < n ==> next(i).Data?
    ensures |r| == n && forall i :: 0 <= i < n ==> r[i] == next(i).bytes
  {
    seq(n, i requires 0 <= i < n && next(i).Data? => next(i).bytes)
  }

  function Concat(chunks: seq<Bytes>): Bytes {
    if chunks == [] then [] else Concat(chunks[..|chunks| - 1]) + chunks[|chunks| - 1]
  }

  /** The reader has taken all of these and wants more, or is about to parse. */
  ghost predicate Taken(chunks: seq<Bytes>) {
    chunks == [] || (
      var front := chunks[..|chunks| - 1];
      Taken(front) && !Complete(Concat(front)) && |Concat(chunks)| <= LIMIT)
  }

  lemma {:induction false} AfterTaken(chunks: seq<Bytes>, rest: seq<Bytes>, end: ReadError)
    requires Taken(chunks)
    ensures ReadFrom([], chunks + rest, end) == ReadFrom(Concat(chunks), rest, end)
  {
    hide Complete, Parse;
    if chunks == [] {
      assert [] + rest == rest;
    } else {
      var front, last := chunks[..|chunks| - 1], chunks[|chunks| - 1];
      assert chunks + rest == front + ([last] + rest);
      AfterTaken(front, [last] + rest, end);
      assert ([last] + rest)[0] == last && ([last] + rest)[1..] == rest;
    }
  }

  lemma TakeOne(chunks: seq<Bytes>, c: Bytes)
    ensures Concat(chunks + [c]) == Concat(chunks) + c
    ensures Taken(chunks + [c]) <==> Taken(chunks) && !Complete(Concat(chunks)) && |Concat(chunks) + c| <= LIMIT
  {
    hide Complete;
    assert (chunks + [c])[..|chunks|] == chunks;
  }

  /** `read_request_target`, on any stream: `next(k)` is the k-th read. It reads at most once more than
      the limit has bytes, so it ends even when the stream does not. */
  method ReadRequestTarget(next: nat -> Read) returns (result: Result, used: nat)
    requires forall k :: IsRead(next(k))
    ensures used <= 16385 && forall i :: 0 <= i < used ==> next(i).Data?
    ensures result == ReadFrom([], Chunks(next, used), if next(used).Broken? then BrokenStream else ClosedEarly)
  {
    hide Parse, Complete, ReadFrom, Concat, Taken;
    var request: Bytes := [];
    used := 0;
    assert Concat([]) == [] && Taken([]) by { NothingTaken(); }
    while !Complete(request)
      invariant used <= |request| <= LIMIT
      invariant forall i :: 0 <= i < used ==> next(i).Data?
      invariant request == Concat(Chunks(next, used)) && Taken(Chunks(next, used))
      decreases LIMIT - |request|
    {
      var r := next(used);
      assert IsRead(next(used));
      ghost var taken := Chunks(next, used);
      if !r.Data? {
        AfterTaken(taken, [], EndOf(r));
        StreamEnds(request, EndOf(r));
        assert taken + [] == taken;
        return Failed(EndOf(r)), used;
      }
      TakeOne(taken, r.bytes);
      used := used + 1;
      assert Chunks(next, used) == taken + [r.bytes];
      if |request + r.bytes| > LIMIT {
        AfterTaken(taken, [r.bytes], EndOf(next(used)));
        Overflows(request, r.bytes, EndOf(next(used)));
        return Failed(TooLarge), used;
      }
      request := request + r.bytes;
    }
    AfterTaken(Chunks(next, used), [], EndOf(next(used)));
    assert Chunks(next, used) + [] == Chunks(next, used);
    Finishes(request, EndOf(next(used)));
    result := Parse(request);
  }

  lemma NothingTaken()
    ensures Concat([]) == [] && Taken([])
  {
  }

  lemma StreamEnds(request: Bytes, end: ReadError)
    requires !Complete(request)
    ensures ReadFrom(request, [], end) == Failed(end)
  {
  }

  lemma Overflows(request: Bytes, c: Bytes, end: ReadError)
    requires !Complete(request) && |request + c| > LIMIT
    ensures ReadFrom(request, [c], end) == Failed(TooLarge)
  {
  }

  lemma Finishes(request: Bytes, end: ReadError)
    requires Complete(request)
    ensures ReadFrom(request, [], end) == Parse(request)
  {
  }

  // ---- how the bytes are cut does not matter, nearly ----

  /** A way of cutting the bytes into reads. */
  ghost predicate Cuts(chunks: seq<Bytes>, bytes: Bytes) {
    Concat(chunks) == bytes && forall i :: 0 <= i < |chunks| ==> 1 <= |chunks[i]| <= CHUNK
  }

  /** Length of the shortest complete beginning. */
  function HeadLength(bytes: Bytes): (n: nat)
    requires Complete(bytes)
    ensures 4 <= n <= |bytes| && EndsAt(bytes, n - 4) && forall i :: 0 <= i < n - 4 ==> !EndsAt(bytes, i)
  {
    HeadFrom(bytes, 0)
  }

  function HeadFrom(bytes: Bytes, i: nat): (n: nat)
    requires i <= |bytes| && exists k :: i <= k <= |bytes| && EndsAt(bytes, k)
    ensures i + 4 <= n <= |bytes| && EndsAt(bytes, n - 4) && forall k :: i <= k < n - 4 ==> !EndsAt(bytes, k)
    decreases |bytes| - i
  {
    if EndsAt(bytes, i) then i + 4 else HeadFrom(bytes, i + 1)
  }

  lemma CompletePrefix(bytes: Bytes, n: nat)
    requires n <= |bytes|
    ensures Complete(bytes[..n]) <==> Complete(bytes) && HeadLength(bytes) <= n
  {
    hide HeadLength;
    forall i | 0 <= i && i + 4 <= n ensures EndsAt(bytes[..n], i) <==> EndsAt(bytes, i) {
      assert bytes[..n][i..i + 4] == bytes[i..i + 4];
    }
    if Complete(bytes[..n]) {
      var i :| 0 <= i <= n && EndsAt(bytes[..n], i);
      assert EndsAt(bytes, i);
    }
    if Complete(bytes) && HeadLength(bytes) <= n {
      assert EndsAt(bytes[..n], HeadLength(bytes) - 4);
    }
  }

  /** The request line ends before the head does. */
  lemma {:induction false} FirstLineOfHead(bytes: Bytes, n: nat, k: nat)
    requires k < n <= |bytes| && bytes[k] == LF
    ensures FirstLine(bytes[..n]) == FirstLine(bytes)
  {
    if bytes[0] != LF {
      assert bytes[..n][1..] == bytes[1..][..n - 1];
      FirstLineOfHead(bytes[1..], n - 1, k - 1);
    }
  }

  lemma ParseOfHead(bytes: Bytes, n: nat)
    requires Complete(bytes) && HeadLength(bytes) <= n <= |bytes|
    ensures Parse(bytes[..n]) == Parse(bytes)
  {
    hide HeadLength, FirstLine;
    var h := HeadLength(bytes);
    assert bytes[h - 4..h][3] == END[3] == LF;
    FirstLineOfHead(bytes, n, h - 1);
  }

  lemma {:induction false} ConcatAppend(a: seq<Bytes>, b: seq<Bytes>)
    ensures Concat(a + b) == Concat(a) + Concat(b)
  {
    if b == [] {
      assert a + b == a;
      assert Concat(a) + [] == Concat(a);
    } else {
      assert (a + b)[..|a + b| - 1] == a + b[..|b| - 1];
      ConcatAppend(a, b[..|b| - 1]);
      Assoc(Concat(a), Concat(b[..|b| - 1]), b[|b| - 1]);
    }
  }

  lemma ConcatFirst(chunks: seq<Bytes>)
    requires chunks != []
    ensures Concat(chunks) == chunks[0] + Concat(chunks[1..])
  {
    ConcatAppend([chunks[0]], chunks[1..]);
    assert chunks == [chunks[0]] + chunks[1..];
    var one := [chunks[0]];
    assert one[..0] == [];
    assert Concat(one) == [] + chunks[0];
  }

  predicate Small(chunks: seq<Bytes>) {
    forall i :: 0 <= i < |chunks| ==> 1 <= |chunks[i]| <= CHUNK
  }

  /** What a reader can say of the bytes, however they come. */
  ghost predicate Possible(bytes: Bytes, end: ReadError, r: Result) {
    if !Complete(bytes) then r == Failed(if |bytes| > 16384 then TooLarge else end)
    else
      var h := HeadLength(bytes);
      && (r == Parse(bytes) || r == Failed(TooLarge))
      && (h > 16384 ==> r == Failed(TooLarge))
      && (|bytes| <= 16384 || h + 1023 <= 16384 ==> r == Parse(bytes))
  }

  lemma {:induction false} ReadIsPossible(request: Bytes, chunks: seq<Bytes>, bytes: Bytes, end: ReadError)
    requires bytes == request + Concat(chunks) && |request| <= LIMIT && Small(chunks)
    ensures Possible(bytes, end, ReadFrom(request, chunks, end))
    decreases |chunks|
  {
    hide Parse, Complete, HeadLength, Concat;
    assert bytes[..|request|] == request;
    CompletePrefix(bytes, |request|);
    if Complete(request) {
      ParseOfHead(bytes, |request|);
    } else if chunks == [] {
      assert bytes == request by { NothingTaken(); }
    } else {
      var c := chunks[0];
      ConcatFirst(chunks);
      Assoc(request, c, Concat(chunks[1..]));
      assert 1 <= |c| <= CHUNK;
      if |request + c| <= LIMIT {
        ReadIsPossible(request + c, chunks[1..], bytes, end);
      }
    }
  }

  lemma ParseIsNotTooLarge(request: Bytes)
    ensures Parse(request) != Failed(TooLarge)
  {
    hide FirstLine, SplitWhitespace, DropReturns;
  }

  // ---- two ways of cutting that differ ----

  function Ones(bytes: Bytes): (r: seq<Bytes>)
    ensures |r| == |bytes| && forall i :: 0 <= i < |r| ==> r[i] == [bytes[i]]
  {
    seq(|bytes|, i requires 0 <= i < |bytes| => [bytes[i]])
  }

  lemma {:induction false} ConcatOnes(bytes: Bytes)
    ensures Concat(Ones(bytes)) == bytes
  {
    if bytes != [] {
      var front := bytes[..|bytes| - 1];
      ConcatOnes(front);
      assert Ones(bytes)[..|bytes| - 1] == Ones(front);
    }
  }

  /** Byte by byte the reader gets to any place up to the end of the head. */
  lemma {:induction false} ByteByByte(bytes: Bytes, m: nat, k: nat, rest: seq<Bytes>, end: ReadError)
    requires Complete(bytes) && m <= k <= HeadLength(bytes) && k <= LIMIT
    ensures ReadFrom(bytes[..m], Ones(bytes[m..k]) + rest, end) == ReadFrom(bytes[..k], rest, end)
    decreases k - m
  {
    hide Parse, Complete, HeadLength;
    var ones := Ones(bytes[m..k]);
    if m == k {
      assert ones + rest == rest;
    } else {
      CompletePrefix(bytes, m);
      assert (ones + rest)[0] == [bytes[m]];
      assert (ones + rest)[1..] == Ones(bytes[m + 1..k]) + rest;
      assert bytes[..m] + [bytes[m]] == bytes[..m + 1];
      ByteByByte(bytes, m + 1, k, rest, end);
    }
  }

  ghost predicate SameHoweverCut(bytes: Bytes, end: ReadError) {
    forall a, b :: Cuts(a, bytes) && Cuts(b, bytes) ==> ReadFrom([], a, end) == ReadFrom([], b, end)
  }

  /** The limit is checked on what has been read, not on the head: when the head fits but the reader may
      swallow more than the limit along with its last byte, one cut is parsed and another refused. */
  lemma TwoCuts(bytes: Bytes, end: ReadError) returns (a: seq<Bytes>, b: seq<Bytes>)
    requires Complete(bytes) && |bytes| > LIMIT && HeadLength(bytes) <= LIMIT < HeadLength(bytes) + CHUNK - 1
    ensures Cuts(a, bytes) && ReadFrom([], a, end) == Parse(bytes)
    ensures Cuts(b, bytes) && ReadFrom([], b, end) == Failed(TooLarge)
  {
    hide Parse, Complete, HeadLength, Concat;
    var h := HeadLength(bytes);
    assert bytes[..0] == [];
    a := Ones(bytes[..h]) + Ones(bytes[h..]);
    ConcatOnes(bytes[..h]);
    ConcatOnes(bytes[h..]);
    ConcatAppend(Ones(bytes[..h]), Ones(bytes[h..]));
    assert bytes == bytes[..h] + bytes[h..];
    ByteByByte(bytes, 0, h, Ones(bytes[h..]), end);
    assert bytes[0..h] == bytes[..h];
    CompletePrefix(bytes, h);
    ParseOfHead(bytes, h);
    b := OverrunningCut(bytes, h, end);
  }

  lemma OverrunningCut(bytes: Bytes, h: nat, end: ReadError) returns (b: seq<Bytes>)
    requires Complete(bytes) && h == HeadLength(bytes) && |bytes| > LIMIT && h <= LIMIT < h + CHUNK - 1
    ensures Cuts(b, bytes) && ReadFrom([], b, end) == Failed(TooLarge)
  {
    hide Parse, Complete, HeadLength, Concat;
    var stop := if h - 1 + CHUNK <= |bytes| then h - 1 + CHUNK else |bytes|;
    var first, big, last := bytes[..h - 1], bytes[h - 1..stop], bytes[stop..];
    var rest := [big] + Ones(last);
    b := Ones(first) + rest;
    assert bytes == first + (big + last);
    ConcatOnes(first);
    ConcatOnes(last);
    ConcatFirst(rest);
    assert rest[1..] == Ones(last);
    ConcatAppend(Ones(first), rest);
    assert Small(rest);
    assert bytes[..0] == [] && bytes[0..h - 1] == first;
    ByteByByte(bytes, 0, h - 1, rest, end);
    CompletePrefix(bytes, h - 1);
    assert |first + big| > LIMIT;
  }

  /** The target, or the error, is the same for all ways of cutting the same bytes exactly when there is no
      complete head, everything fits the limit, the head alone is over it, or it leaves room for one more read. */
  lemma ChunkIndependence(bytes: Bytes, end: ReadError)
    ensures SameHoweverCut(bytes, end) <==>
      !Complete(bytes) || |bytes| <= 16384 || HeadLength(bytes) > 16384 || HeadLength(bytes) + 1023 <= 16384
  {
    hide Parse, Complete, HeadLength, Concat, ReadFrom;
    forall a, b | Cuts(a, bytes) && Cuts(b, bytes)
      ensures Possible(bytes, end, ReadFrom([], a, end)) && Possible(bytes, end, ReadFrom([], b, end))
    {
      assert [] + Concat(a) == bytes && [] + Concat(b) == bytes;
      ReadIsPossible([], a, bytes, end);
      ReadIsPossible([], b, bytes, end);
    }
    if Complete(bytes) && |bytes| > LIMIT && HeadLength(bytes) <= LIMIT < HeadLength(bytes) + CHUNK - 1 {
      var a, b := TwoCuts(bytes, end);
      ParseIsNotTooLarge(bytes);
    }
  }

  // ---- what is read ----

  /** The head is complete exactly when an empty line is in it. */
  lemma CompleteExactly(request: Bytes)
    ensures Complete(request) <==> exists a, b :: request == a + [13, 10, 13, 10] + b
  {
    if Complete(request) {
      var i :| 0 <= i <= |request| && EndsAt(request, i);
      assert request == request[..i] + [13, 10, 13, 10] + request[i + 4..];
    }
    if a, b :| request == a + [13, 10, 13, 10] + b {
      assert EndsAt(request, |a|);
    }
  }

  /** Three words, the first and the last of them fixed, and otherwise what is wrong with them. */
  lemma LineExactly(words: seq<string>)
    requires AllWords(words)
    ensures var r := ParseLine(Join(words, ' '));
      && (forall t :: r == Target(t) <==> words == ["GET", t, "HTTP/1.1"])
      && (r == Failed(NotGet) <==> words == [] || words[0] != "GET")
      && (r == Failed(NoTarget) <==> words == ["GET"])
      && (r.Target? || r in {Failed(NotGet), Failed(NoTarget), Failed(Malformed)})
  {
    hide SplitWhitespace;
    SplitJoin(words, ' ');
    if |words| == 3 { assert words == [words[0], words[1], words[2]]; }
  }

  lemma {:induction false} FirstLineStops(line: Bytes, more: Bytes)
    requires forall i :: 0 <= i < |line| ==> line[i] != LF
    ensures FirstLine(line + [LF] + more) == line && FirstLine(line) == line
  {
    var all := line + [LF] + more;
    if line != [] {
      assert all[0] == line[0] && all[1..] == line[1..] + [LF] + more;
      FirstLineStops(line[1..], more);
      assert line == [line[0]] + line[1..];
    } else {
      assert all[0] == LF;
    }
  }

  lemma {:induction false} ReturnsAreBlank(s: string)
    ensures SplitWhitespace(DropReturns(s)) == SplitWhitespace(s)
  {
    if s != "" && s[|s| - 1] == '\r' {
      var front, last := s[..|s| - 1], s[|s| - 1..];
      ReturnsAreBlank(front);
      SplitSpaced(front, last);
      assert s == front + last && last[1..] == "";
    }
  }

  /** What follows the first line plays no part, nor do carriage returns at its end. */
  lemma RequestExactly(line: Bytes, more: Bytes)
    requires forall i :: 0 <= i < |line| ==> line[i] != 10
    ensures Parse(line + [10] + more) == if Utf8.Decode(line).None? then Failed(NotText) else ParseLine(Utf8.Decode(line).value)
    ensures Parse(line) == Parse(line + [10] + more)
  {
    hide SplitWhitespace, FirstLine;
    FirstLineStops(line, more);
    if Utf8.Decode(line).Some? { ReturnsAreBlank(Utf8.Decode(line).value); }
  }
}
