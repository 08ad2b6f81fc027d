/** Form fields in a query: the printer, the parser, and the look-up of one field.
    Section 2.1 of RFC 3986 gives the percent encoding. */
module Form {
  import opened Text
  import opened Utf8

  type Field = (string, string)

  // ---- printing ----

  predicate IsAlphanumeric(b: Byte) {
    '0' as int <= b <= '9' as int || 'A' as int <= b <= 'Z' as int || 'a' as int <= b <= 'z' as int
  }

  function Hex(n: nat): char
    requires n < 16
  {
    if n < 10 then ('0' as int + n) as char else ('A' as int + n - 10) as char
  }

  function EncodeByte(b: Byte): string {
    if IsAlphanumeric(b) then [b as char] else ['%', Hex(b / 16), Hex(b % 16)]
  }

  function EncodeBytes(bytes: seq<Byte>): string {
    if bytes == [] then "" else EncodeByte(bytes[0]) + EncodeBytes(bytes[1..])
  }

  /** `encode`. */
  function EncodeText(s: string): string {
    EncodeBytes(Utf8.Encode(s))
  }

  function Part(f: Field): string {
    EncodeText(f.0) + "=" + EncodeText(f.1)
  }

  function Parts(fields: seq<Field>): (r: seq<string>)
    ensures |r| == |fields|
  {
    if fields == [] then [] else [Part(fields[0])] + Parts(fields[1..])
  }

  /** `form`. */
  function Print(fields: seq<Field>): string {
    Join(Parts(fields), '&')
  }

  /** Only ASCII letters and digits are printed as they are; capital digits make up the rest. */
  lemma EncodeByteExactly(b: Byte)
    ensures EncodeByte(b) ==
      if 48 <= b <= 57 || 65 <= b <= 90 || 97 <= b <= 122 then [b as char]
      else ['%', "0123456789ABCDEF"[b / 16], "0123456789ABCDEF"[b % 16]]
  {
    HexExactly(b / 16);
    HexExactly(b % 16);
  }

  lemma HexExactly(n: nat)
    requires n < 16
    ensures Hex(n) == "0123456789ABCDEF"[n]
  {
  }

  // ---- parsing ----

  predicate IsHexDigit(c: char) {
    '0' <= c <= '9' || 'A' <= c <= 'F' || 'a' <= c <= 'f'
  }

  function HexValue(c: char): (n: nat)
    requires IsHexDigit(c)
    ensures n < 16
  {
    if c <= '9' then c as int - '0' as int
    else if c <= 'F' then c as int - 'A' as int + 10
    else c as int - 'a' as int + 10
  }

  /** A percent sign without two digits stands for itself. */
  function PercentDecode(s: string): seq<Byte>
    decreases |s|
  {
    if s == "" then []
    else if |s| >= 3 && s[0] == '%' && IsHexDigit(s[1]) && IsHexDigit(s[2]) then
      [HexValue(s[1]) * 16 + HexValue(s[2])] + PercentDecode(s[3..])
    else EncodeChar(s[0]) + PercentDecode(s[1..])
  }

  function PlusToBlank(s: string): string {
    if s == "" then "" else [if s[0] == '+' then ' ' else s[0]] + PlusToBlank(s[1..])
  }

  function DecodeText(raw: string): Option<string> {
    Utf8.Decode(PercentDecode(PlusToBlank(raw)))
  }

  function ParsePart(part: string): Option<Field> {
    var (key, value) := if SplitOnce(part, '=').Some? then SplitOnce(part, '=').value else (part, "");
    var k, v := DecodeText(key), DecodeText(value);
    if k.Some? && v.Some? then Some((k.value, v.value)) else None
  }

  /** Empty parts are dropped; one part that is not UTF-8 refuses the query. */
  function ParseParts(parts: seq<string>): Option<seq<Field>> {
    if parts == [] then Some([])
    else if parts[0] == "" then ParseParts(parts[1..])
    else
      var first, rest := ParsePart(parts[0]), ParseParts(parts[1..]);
      if first.Some? && rest.Some? then Some([first.value] + rest.value) else None
  }

  /** `parse_query`; None is the error. */
  function ParseQuery(query: string): Option<seq<Field>> {
    ParseParts(Split(query, '&'))
  }

  // ---- what is parsed ----

  lemma {:induction false} ParsePartsAppend(a: seq<string>, b: seq<string>)
    ensures var x, y := ParseParts(a), ParseParts(b);
      ParseParts(a + b) == if x.Some? && y.Some? then Some(x.value + y.value) else None
  {
    hide ParsePart;
    if a == [] {
      assert a + b == b;
      if ParseParts(b).Some? { assert [] + ParseParts(b).value == ParseParts(b).value; }
    } else {
      assert (a + b)[0] == a[0] && (a + b)[1..] == a[1..] + b;
      ParsePartsAppend(a[1..], b);
      var first, x, y := ParsePart(a[0]), ParseParts(a[1..]), ParseParts(b);
      if first.Some? && x.Some? && y.Some? { Assoc([first.value], x.value, y.value); }
    }
  }

  /** A query is read part by part: an ampersand separates, wherever it stands, and one bad part refuses it all. */
  lemma QueryJoins(a: string, b: string)
    ensures var x, y := ParseQuery(a), ParseQuery(b);
      ParseQuery(a + "&" + b) == if x.Some? && y.Some? then Some(x.value + y.value) else None
  {
    hide ParsePart, Split;
    SplitAt(a, '&', b);
    ParsePartsAppend(Split(a, '&'), Split(b, '&'));
  }

  /** An empty part says nothing; in any other the first equals sign ends the name, and without one there is no value. */
  lemma QueryOfOne(name: string, value: string)
    requires Lacks(name, '&') && Lacks(value, '&') && Lacks(name, '=')
    ensures ParseQuery("") == Some([])
    ensures var n, v := DecodeText(name), DecodeText(value);
      && ParseQuery(name + "=" + value) == (if n.Some? && v.Some? then Some([(n.value, v.value)]) else None)
      && (name != "" ==> ParseQuery(name) == if n.Some? then Some([(n.value, "")]) else None)
  {
    hide DecodeText, IndexOf, Split;
    var part := name + "=" + value;
    SplitWhole("", '&');
    SplitWhole(part, '&');
    SplitWhole(name, '&');
    SplitOnceAt(name, '=', value);
    NoEquals(name);
    assert DecodeText("") == Some("") by { NoText(); }
    NoParts();
    OnePart("");
    OnePart(part);
    OnePart(name);
  }

  lemma OnePart(part: string)
    ensures ParseParts([part]) ==
      if part == "" then Some([]) else if ParsePart(part).Some? then Some([ParsePart(part).value]) else None
  {
    hide ParsePart;
    assert [part][1..] == [];
    assert ParseParts([]) == Some([]);
    if ParsePart(part).Some? { assert [ParsePart(part).value] + [] == [ParsePart(part).value]; }
  }

  lemma NoEquals(name: string)
    requires Lacks(name, '=')
    ensures SplitOnce(name, '=') == None
  {
  }

  lemma NoText()
    ensures DecodeText("") == Some("")
  {
    assert PlusToBlank("") == "" && PercentDecode("") == [] && Utf8.Decode([]) == Some("");
  }

  lemma {:induction false} PlusIsBlank(s: string)
    ensures |PlusToBlank(s)| == |s| && forall i :: 0 <= i < |s| ==> PlusToBlank(s)[i] == if s[i] == '+' then ' ' else s[i]
  {
    if s != "" { PlusIsBlank(s[1..]); }
  }

  /** A percent sign and two hexadecimal digits, capital or small, are a byte; every other character is itself. */
  lemma PercentExactly(a: char, b: char, high: nat, low: nat, rest: string)
    requires high < 16 && (a == "0123456789ABCDEF"[high] || a == "0123456789abcdef"[high])
    requires low < 16 && (b == "0123456789ABCDEF"[low] || b == "0123456789abcdef"[low])
    ensures PercentDecode("%" + [a, b] + rest) == [16 * high + low] + PercentDecode(rest)
  {
    var s := "%" + [a, b] + rest;
    assert s[0] == '%' && s[1] == a && s[2] == b && s[3..] == rest;
    DigitsExactly(a, high);
    DigitsExactly(b, low);
  }

  lemma DigitsExactly(c: char, n: nat)
    requires n < 16 && (c == "0123456789ABCDEF"[n] || c == "0123456789abcdef"[n])
    ensures IsHexDigit(c) && HexValue(c) == n
  {
  }

  lemma OtherCharacters(c: char, rest: string)
    requires c != '%' || |rest| < 2 || !IsHexDigit(rest[0]) || !IsHexDigit(rest[1])
    ensures PercentDecode([c] + rest) == EncodeChar(c) + PercentDecode(rest)
  {
    var s := [c] + rest;
    assert s[1..] == rest;
    assert |rest| >= 2 ==> s[1] == rest[0] && s[2] == rest[1];
  }

  // ---- the round trip ----

  /** The characters of printed text: nothing that separates, no white space. */
  predicate Unreserved(c: char) {
    c == '%' || '0' <= c <= '9' || 'A' <= c <= 'Z' || 'a' <= c <= 'z'
  }

  predicate Clean(s: string) {
    forall i :: 0 <= i < |s| ==> Unreserved(s[i])
  }

  lemma {:induction false} PrintedIsClean(bytes: seq<Byte>)
    ensures Clean(EncodeBytes(bytes))
  {
    if bytes != [] {
      PrintedIsClean(bytes[1..]);
      assert Clean(EncodeByte(bytes[0]));
    }
  }

  lemma {:induction false} NoPlus(s: string)
    requires Clean(s)
    ensures PlusToBlank(s) == s
  {
    if s != "" {
      NoPlus(s[1..]);
      assert s == [s[0]] + s[1..];
    }
  }

  lemma DecodeOneByte(b: Byte, rest: string)
    ensures PercentDecode(EncodeByte(b) + rest) == [b] + PercentDecode(rest)
  {
    var e := EncodeByte(b);
    var s := e + rest;
    if IsAlphanumeric(b) {
      assert s[1..] == rest && s[0] == b as char;
      assert EncodeChar(s[0]) == [b];
    } else {
      assert s[3..] == rest && s[0] == '%' && s[1] == Hex(b / 16) && s[2] == Hex(b % 16);
      assert HexValue(s[1]) == b / 16 && HexValue(s[2]) == b % 16;
    }
  }

  lemma {:induction false} DecodePrinted(bytes: seq<Byte>)
    ensures PercentDecode(EncodeBytes(bytes)) == bytes
  {
    hide EncodeByte;
    if bytes != [] {
      DecodePrinted(bytes[1..]);
      DecodeOneByte(bytes[0], EncodeBytes(bytes[1..]));
      assert bytes == [bytes[0]] + bytes[1..];
    } else {
      assert EncodeBytes([]) == "";
    }
  }

  /** Any text at all survives. */
  lemma TextRoundTrip(s: string)
    ensures DecodeText(EncodeText(s)) == Some(s) && Clean(EncodeText(s))
  {
    PrintedIsClean(Utf8.Encode(s));
    NoPlus(EncodeText(s));
    DecodePrinted(Utf8.Encode(s));
    DecodeEncode(s);
  }

  lemma PartRoundTrip(f: Field)
    ensures ParsePart(Part(f)) == Some(f) && Part(f) != "" && Lacks(Part(f), '&')
  {
    hide DecodeText, EncodeText, SplitOnce;
    TextRoundTrip(f.0);
    TextRoundTrip(f.1);
    SplitOnceAt(EncodeText(f.0), '=', EncodeText(f.1));
  }

  lemma {:induction false} PartsRoundTrip(fields: seq<Field>)
    ensures ParseParts(Parts(fields)) == Some(fields)
    ensures forall i :: 0 <= i < |Parts(fields)| ==> Lacks(Parts(fields)[i], '&')
  {
    hide ParsePart, Part;
    if fields != [] {
      PartRoundTrip(fields[0]);
      PartsRoundTrip(fields[1..]);
      assert fields == [fields[0]] + fields[1..];
      assert Parts(fields)[1..] == Parts(fields[1..]);
    }
  }

  /** Every list of fields is read back as it was printed: empty names and values, separators, blanks,
      plus and percent signs, repeated names. */
  lemma FormRoundTrip(fields: seq<Field>)
    ensures ParseQuery(Print(fields)) == Some(fields)
  {
    hide Parts, ParsePart;
    PartsRoundTrip(fields);
    if fields == [] {
      assert Parts([]) == [] by { NoParts(); }
      assert Split("", '&') == [""] && [""][1..] == [];
    } else {
      SplitJoinOn(Parts(fields), '&');
    }
  }

  lemma NoParts()
    ensures Parts([]) == []
  {
  }

  /** So different lists are never printed alike. */
  lemma PrintIsFaithful(a: seq<Field>, b: seq<Field>)
    requires Print(a) == Print(b)
    ensures a == b
  {
    FormRoundTrip(a);
    FormRoundTrip(b);
  }

  // ---- one field ----

  datatype Lookup = Found(value: Option<string>) | Repeated

  function Values(fields: seq<Field>, key: string): seq<string> {
    if fields == [] then [] else (if fields[0].0 == key then [fields[0].1] else []) + Values(fields[1..], key)
  }

  /** `one`. */
  function One(fields: seq<Field>, key: string): Lookup {
    var found := Values(fields, key);
    if |found| == 0 then Found(None) else if |found| == 1 then Found(Some(found[0])) else Repeated
  }

  predicate At(fields: seq<Field>, key: string, i: nat) {
    i < |fields| && fields[i].0 == key
  }

  lemma {:induction false} ValuesAt(fields: seq<Field>, key: string)
    ensures |Values(fields, key)| == 0 <==> forall i :: 0 <= i < |fields| ==> !At(fields, key, i)
    ensures |Values(fields, key)| >= 1 ==>
      exists i :: 0 <= i < |fields| && At(fields, key, i) && fields[i].1 == Values(fields, key)[0]
    ensures |Values(fields, key)| <= 1 <==> forall i, j :: 0 <= i < j < |fields| ==> !At(fields, key, i) || !At(fields, key, j)
  {
    if fields != [] {
      var rest := fields[1..];
      ValuesAt(rest, key);
      assert forall i :: 0 <= i < |rest| ==> (At(rest, key, i) <==> At(fields, key, i + 1));
      assert forall i :: 0 < i < |fields| ==> (At(fields, key, i) <==> At(rest, key, i - 1));
      if At(fields, key, 0) { assert fields[0].1 == Values(fields, key)[0]; }
    }
  }

  /** A look-up fails exactly when the name occurs more than once, and answers with the one value otherwise. */
  lemma OneIsExact(fields: seq<Field>, key: string)
    ensures One(fields, key) == Repeated <==> exists i, j :: 0 <= i < j < |fields| && At(fields, key, i) && At(fields, key, j)
    ensures One(fields, key) == Found(None) <==> forall i :: 0 <= i < |fields| ==> !At(fields, key, i)
    ensures forall v :: One(fields, key) == Found(Some(v)) ==>
      exists i :: 0 <= i < |fields| && At(fields, key, i) && fields[i] == (key, v)
  {
    hide Values;
    ValuesAt(fields, key);
    if |Values(fields, key)| == 1 {
      var i :| 0 <= i < |fields| && At(fields, key, i) && fields[i].1 == Values(fields, key)[0];
      assert fields[i] == (key, Values(fields, key)[0]);
    }
  }
}
