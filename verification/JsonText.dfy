/**
 JSON values and the text `JSON.stringify` prints for them (section 4 to 7 of RFC 8259), over UTF-16
 code units. Only what separates values is modelled as syntax: numbers come as the decimal text
 ECMAScript prints for them, so two numbers are the same exactly when their text is.
 */
module JsonText {

  type Unit = x: int | 0 <= x < 0x1_0000
  type Text = seq<Unit>

  /** The units of an ASCII string. */
  function Ascii(s: string): (t: Text)
    requires forall i :: 0 <= i < |s| ==> s[i] < 128 as char
    ensures |t| == |s| && forall i :: 0 <= i < |t| ==> t[i] == s[i] as int
  {
    seq(|s|, i requires 0 <= i < |s| => s[i] as int)
  }

  datatype Member<V> = Member(key: Text, value: V)

  /** `NonFinite` is what parsing a literal such as 1e999 yields. */
  datatype Json =
    | Null
    | Bool(b: bool)
    | Number(literal: Text)
    | NonFinite
    | Str(s: Text)
    | Arr(items: seq<Json>)
    | Obj(members: seq<Member<Json>>)

  const QUOTE: Unit := 0x22
  const COMMA: Unit := 0x2c
  const COLON: Unit := 0x3a
  const BACKSLASH: Unit := 0x5c
  const OPEN_BRACKET: Unit := 0x5b
  const CLOSE_BRACKET: Unit := 0x5d
  const OPEN_BRACE: Unit := 0x7b
  const CLOSE_BRACE: Unit := 0x7d

  predicate Digit(u: Unit) { 0x30 <= u <= 0x39 }

  /** Digits, sign, point and exponent letter. */
  predicate NumberUnit(u: Unit) { Digit(u) || u == 0x2b || u == 0x2d || u == 0x2e || u == 0x65 }

  predicate Literal(t: Text) {
    |t| > 0 && (Digit(t[0]) || t[0] == 0x2d) && forall i :: 0 <= i < |t| ==> NumberUnit(t[i])
  }

  predicate DistinctKeys<V>(ms: seq<Member<V>>) {
    forall i, j :: 0 <= i < j < |ms| ==> ms[i].key != ms[j].key
  }

  /** What a JSON parser produces: printable numbers, and objects with one member per key. */
  predicate Parsed(j: Json) {
    match j
    case Number(t) => Literal(t)
    case Arr(items) => forall i :: 0 <= i < |items| ==> Parsed(items[i])
    case Obj(ms) => DistinctKeys(ms) && forall i :: 0 <= i < |ms| ==> Parsed(ms[i].value)
    case _ => true
  }

  predicate Finite(j: Json) {
    match j
    case NonFinite => false
    case Arr(items) => forall i :: 0 <= i < |items| ==> Finite(items[i])
    case Obj(ms) => forall i :: 0 <= i < |ms| ==> Finite(ms[i].value)
    case _ => true
  }

  function MapValues<A, B>(f: A -> B, ms: seq<Member<A>>): (r: seq<Member<B>>)
    ensures |r| == |ms| && forall i :: 0 <= i < |ms| ==> r[i] == Member(ms[i].key, f(ms[i].value))
  {
    seq(|ms|, i requires 0 <= i < |ms| => Member(ms[i].key, f(ms[i].value)))
  }

  // --- Strings ----------------------------------------------------------------

  predicate HighSurrogate(u: Unit) { 0xd800 <= u < 0xdc00 }

  predicate LowSurrogate(u: Unit) { 0xdc00 <= u < 0xe000 }

  function HexDigit(n: nat): Unit
    requires n < 16
  {
    if n < 10 then 0x30 + n else 0x61 + n - 10
  }

  function HexValue(u: Unit): nat { if Digit(u) then u - 0x30 else if 0x61 <= u <= 0x66 then u - 0x61 + 10 else 0 }

  /** Backslash, u, and four lower-case hexadecimal digits. */
  function UnicodeEscape(u: Unit): Text {
    [BACKSLASH, 0x75, HexDigit(u / 16 / 16 / 16), HexDigit(u / 16 / 16 % 16), HexDigit(u / 16 % 16), HexDigit(u % 16)]
  }

  /** The units with a short escape: backspace, tab, newline, form feed, return, quote, backslash. */
  function ShortEscape(u: Unit): Unit {
    if u == 8 then 0x62 else if u == 9 then 0x74 else if u == 10 then 0x6e else if u == 12 then 0x66
    else if u == 13 then 0x72 else if u == QUOTE || u == BACKSLASH then u else 0
  }

  function ShortMeaning(letter: Unit): Unit {
    if letter == 0x62 then 8 else if letter == 0x74 then 9 else if letter == 0x6e then 10 else if letter == 0x66 then 12
    else if letter == 0x72 then 13 else letter
  }

  /** One unit outside a surrogate pair. */
  function EscapeUnit(u: Unit): Text {
    if ShortEscape(u) != 0 then [BACKSLASH, ShortEscape(u)]
    else if u < 0x20 || HighSurrogate(u) || LowSurrogate(u) then UnicodeEscape(u)
    else [u]
  }

  /** The escapes of ECMAScript: the short ones, and four digits for other controls and for lone surrogates. */
  lemma EscapesAre()
    ensures EscapeUnit(0x08) == Ascii("\\b") && EscapeUnit(0x09) == Ascii("\\t") && EscapeUnit(0x0a) == Ascii("\\n")
    ensures EscapeUnit(0x0c) == Ascii("\\f") && EscapeUnit(0x0d) == Ascii("\\r")
    ensures EscapeUnit(0x22) == Ascii("\\\"") && EscapeUnit(0x5c) == Ascii("\\\\")
    ensures EscapeUnit(0x1f) == Ascii("\\u001f") && EscapeUnit(0xdead) == Ascii("\\udead")
  {
  }

  /** Everything else stands for itself. */
  lemma EscapedExactlyWhen(u: Unit)
    ensures EscapeUnit(u) == [u] <==> u >= 0x20 && u != 0x22 && u != 0x5c && !(0xd800 <= u <= 0xdfff)
  {
  }

  function Escape(s: Text): Text {
    if |s| == 0 then []
    else if |s| > 1 && HighSurrogate(s[0]) && LowSurrogate(s[1]) then s[..2] + Escape(s[2..])
    else EscapeUnit(s[0]) + Escape(s[1..])
  }

  function Quote(s: Text): Text { [QUOTE] + Escape(s) + [QUOTE] }

  /** The unit four hexadecimal digits stand for. */
  ghost function HexUnit(a: Unit, b: Unit, c: Unit, d: Unit): Unit {
    ((HexValue(a) * 16 + HexValue(b)) * 16 + HexValue(c)) * 16 + HexValue(d)
  }

  /** Reads string contents up to the closing quote: the string and what follows the quote. */
  ghost function Unescape(t: Text): (Text, Text) {
    if |t| == 0 then ([], [])
    else if t[0] == QUOTE then ([], t[1..])
    else
      var (u, n) := UnescapeUnit(t);
      var (s, rest) := Unescape(t[n..]);
      ([u] + s, rest)
  }

  ghost function UnescapeUnit(t: Text): (r: (Unit, nat))
    requires |t| > 0
    ensures 0 < r.1 <= |t|
  {
    if t[0] != BACKSLASH || |t| == 1 then (t[0], 1)
    else if |t| >= 6 && t[1] == 0x75 then (HexUnit(t[2], t[3], t[4], t[5]), 6)
    else (ShortMeaning(t[1]), 2)
  }

  lemma HexDigitRoundTrip(n: nat)
    requires n < 16
    ensures HexValue(HexDigit(n)) == n
  {
  }

  lemma HexRoundTrip(u: Unit)
    ensures var e := UnicodeEscape(u); HexUnit(e[2], e[3], e[4], e[5]) == u
  {
    HexDigitRoundTrip(u / 16 / 16 / 16);
    HexDigitRoundTrip(u / 16 / 16 % 16);
    HexDigitRoundTrip(u / 16 % 16);
    HexDigitRoundTrip(u % 16);
  }

  lemma EscapeUnitRoundTrip(u: Unit, after: Text)
    ensures var t := EscapeUnit(u) + after; UnescapeUnit(t) == (u, |EscapeUnit(u)|) && t[0] != QUOTE
  {
    if ShortEscape(u) != 0 {
    } else if u < 0x20 || HighSurrogate(u) || LowSurrogate(u) {
      HexRoundTrip(u);
      var e := UnicodeEscape(u);
      assert EscapeUnit(u) == e;
      var t := e + after;
      assert t[1] == 0x75 && t[2] == e[2] && t[3] == e[3] && t[4] == e[4] && t[5] == e[5];
    } else {
    }
  }

  lemma Assoc(a: Text, b: Text, c: Text)
    ensures a + b + c == a + (b + c)
  {
  }

  lemma Drop(p: Text, x: Text)
    ensures (p + x)[|p|..] == x
  {
  }

  lemma UnescapeStep(u: Unit, chunk: Text, rest: Text)
    requires |chunk| > 0 && chunk[0] != QUOTE && UnescapeUnit(chunk + rest) == (u, |chunk|)
    ensures Unescape(chunk + rest) == ([u] + Unescape(rest).0, Unescape(rest).1)
  {
    Drop(chunk, rest);
  }

  lemma UnescapePair(s: Text, tail: Text, end: Text)
    requires |s| > 1 && HighSurrogate(s[0]) && LowSurrogate(s[1])
    requires tail == Escape(s[2..]) + end
    ensures Unescape(Escape(s) + end) == ([s[0]] + ([s[1]] + Unescape(tail).0), Unescape(tail).1)
  {
    UnescapeStep(s[1], [s[1]], tail);
    UnescapeStep(s[0], [s[0]], [s[1]] + tail);
    assert s[..2] == [s[0]] + [s[1]];
    Assoc([s[0]], [s[1]], tail);
    Assoc(s[..2], Escape(s[2..]), end);
    assert Escape(s) + end == [s[0]] + ([s[1]] + tail);
  }

  lemma UnescapeOne(s: Text, tail: Text, end: Text)
    requires |s| > 0 && !(|s| > 1 && HighSurrogate(s[0]) && LowSurrogate(s[1]))
    requires tail == Escape(s[1..]) + end
    ensures Unescape(Escape(s) + end) == ([s[0]] + Unescape(tail).0, Unescape(tail).1)
  {
    Assoc(EscapeUnit(s[0]), Escape(s[1..]), end);
    EscapeUnitRoundTrip(s[0], tail);
    UnescapeStep(s[0], EscapeUnit(s[0]), tail);
  }

  /** Reading what was escaped gives it back, whatever follows. */
  lemma {:induction false} UnescapeEscape(s: Text, after: Text)
    ensures Unescape(Escape(s) + ([QUOTE] + after)) == (s, after)
    decreases |s|
  {
    var end := [QUOTE] + after;
    if |s| == 0 {
      Drop([QUOTE], after);
      assert Escape(s) + end == end;
    } else if |s| > 1 && HighSurrogate(s[0]) && LowSurrogate(s[1]) {
      UnescapeEscape(s[2..], after);
      UnescapePair(s, Escape(s[2..]) + end, end);
      assert s == [s[0]] + ([s[1]] + s[2..]);
    } else {
      UnescapeEscape(s[1..], after);
      UnescapeOne(s, Escape(s[1..]) + end, end);
      assert s == [s[0]] + s[1..];
    }
  }

  // --- Values -----------------------------------------------------------------

  /** Each element after the first comes with its comma. */
  function Tail(texts: seq<Text>): Text {
    if |texts| == 0 then [] else [COMMA] + texts[0] + Tail(texts[1..])
  }

  function Join(texts: seq<Text>): Text {
    if |texts| == 0 then [] else texts[0] + Tail(texts[1..])
  }

  function MemberText(m: Member<Text>): Text { Quote(m.key) + [COLON] + m.value }

  function MemberTexts(ms: seq<Member<Text>>): (r: seq<Text>)
    ensures |r| == |ms| && forall i :: 0 <= i < |ms| ==> r[i] == MemberText(ms[i])
  {
    seq(|ms|, i requires 0 <= i < |ms| => MemberText(ms[i]))
  }

  function Brackets(texts: seq<Text>): Text { [OPEN_BRACKET] + Join(texts) + [CLOSE_BRACKET] }

  function Braces(ms: seq<Member<Text>>): Text { [OPEN_BRACE] + Join(MemberTexts(ms)) + [CLOSE_BRACE] }

  const NULL_TEXT: Text := [0x6e, 0x75, 0x6c, 0x6c]
  const TRUE_TEXT: Text := [0x74, 0x72, 0x75, 0x65]
  const FALSE_TEXT: Text := [0x66, 0x61, 0x6c, 0x73, 0x65]

  function Print(j: Json): Text {
    match j
    case Null => NULL_TEXT
    case Bool(b) => if b then TRUE_TEXT else FALSE_TEXT
    case Number(t) => t
    case NonFinite => NULL_TEXT
    case Str(s) => Quote(s)
    case Arr(items) => Brackets(seq(|items|, i requires 0 <= i < |items| => Print(items[i])))
    case Obj(ms) => Braces(seq(|ms|, i requires 0 <= i < |ms| => Member(ms[i].key, Print(ms[i].value))))
  }

  function Prints(items: seq<Json>): (r: seq<Text>)
    ensures |r| == |items| && forall i :: 0 <= i < |items| ==> r[i] == Print(items[i])
  {
    seq(|items|, i requires 0 <= i < |items| => Print(items[i]))
  }

  lemma PrintUnfolds(j: Json)
    ensures j.Arr? ==> Print(j) == Brackets(Prints(j.items))
    ensures j.Obj? ==> Print(j) == Braces(MapValues(Print, j.members))
  {
    if j.Arr? {
      assert seq(|j.items|, i requires 0 <= i < |j.items| => Print(j.items[i])) == Prints(j.items);
    } else if j.Obj? {
      var ms := j.members;
      assert seq(|ms|, i requires 0 <= i < |ms| => Member(ms[i].key, Print(ms[i].value))) == MapValues(Print, ms);
    }
  }

  /** What the printer writes for scalars. */
  lemma PrintScalars(s: Text)
    ensures Print(Null) == Ascii("null") && Print(Bool(true)) == Ascii("true") && Print(Bool(false)) == Ascii("false")
    ensures Print(Str(s)) == Ascii("\"") + Escape(s) + Ascii("\"")
  {
  }

  /** Texts with a comma between each and the next. */
  ghost function Listed(texts: seq<Text>): Text {
    if |texts| == 0 then [] else if |texts| == 1 then texts[0] else texts[0] + (Ascii(",") + Listed(texts[1..]))
  }

  lemma {:induction false} JoinIsListed(texts: seq<Text>)
    ensures Join(texts) == Listed(texts)
  {
    if |texts| > 1 {
      JoinIsListed(texts[1..]);
      Assoc([COMMA], texts[1], Tail(texts[2..]));
      assert texts[1..][1..] == texts[2..];
    } else if |texts| == 1 {
      assert texts[0] + [] == texts[0];
    }
  }

  lemma BracketsAre(texts: seq<Text>, ms: seq<Member<Text>>)
    ensures Brackets(texts) == Ascii("[") + Listed(texts) + Ascii("]")
    ensures Braces(ms) == Ascii("{") + Listed(MemberTexts(ms)) + Ascii("}")
  {
    assert Ascii("[") == [OPEN_BRACKET] && Ascii("]") == [CLOSE_BRACKET];
    assert Ascii("{") == [OPEN_BRACE] && Ascii("}") == [CLOSE_BRACE];
    JoinIsListed(texts);
    JoinIsListed(MemberTexts(ms));
  }

  /** Arrays are printed in brackets, item by item. */
  lemma PrintArray(items: seq<Json>)
    ensures Print(Arr(items)) == Ascii("[") + Listed(Prints(items)) + Ascii("]")
  {
    PrintUnfolds(Arr(items));
    BracketsAre(Prints(items), []);
  }

  /** Objects are printed in braces, each key quoted and with a colon before its value. */
  lemma PrintObject(ms: seq<Member<Json>>)
    ensures Print(Obj(ms)) == Ascii("{") + Listed(MemberTexts(MapValues(Print, ms))) + Ascii("}")
  {
    PrintUnfolds(Obj(ms));
    BracketsAre([], MapValues(Print, ms));
  }

  lemma PrintMember(ms: seq<Member<Json>>, i: nat)
    requires i < |ms|
    ensures MemberTexts(MapValues(Print, ms))[i] == Quote(ms[i].key) + Ascii(":") + Print(ms[i].value)
  {
    assert Ascii(":") == [COLON];
  }

  // --- The text determines the value ------------------------------------------

  /** What can follow a value inside a document. */
  predicate Stop(t: Text) {
    |t| == 0 || t[0] == COMMA || t[0] == CLOSE_BRACKET || t[0] == CLOSE_BRACE
  }

  // The same printer written with what follows as an argument, so that no text has to be cut up.

  ghost function QuoteOnto(t: Text, k: Text): Text { [QUOTE] + (Escape(t) + ([QUOTE] + k)) }

  ghost function Onto(j: Json, k: Text): Text
    decreases j, 1
  {
    match j
    case Str(s) => QuoteOnto(s, k)
    case Arr(items) => [OPEN_BRACKET] + (if |items| == 0 then [CLOSE_BRACKET] + k
      else Onto(items[0], ItemsOnto(items[1..], k)))
    case Obj(ms) => [OPEN_BRACE] + (if |ms| == 0 then [CLOSE_BRACE] + k else MemberOnto(ms[0], MembersOnto(ms[1..], k)))
    case _ => Print(j) + k
  }

  ghost function ItemsOnto(items: seq<Json>, k: Text): Text
    decreases items, 0
  {
    if |items| == 0 then [CLOSE_BRACKET] + k else [COMMA] + Onto(items[0], ItemsOnto(items[1..], k))
  }

  ghost function MemberOnto(m: Member<Json>, k: Text): Text
    decreases m, 2
  {
    QuoteOnto(m.key, [COLON] + Onto(m.value, k))
  }

  ghost function MembersOnto(ms: seq<Member<Json>>, k: Text): Text
    decreases ms, 0
  {
    if |ms| == 0 then [CLOSE_BRACE] + k else [COMMA] + MemberOnto(ms[0], MembersOnto(ms[1..], k))
  }

  lemma {:induction false} OntoIsPrint(j: Json, k: Text)
    ensures Onto(j, k) == Print(j) + k
    decreases j, 1
  {
    match j
    case Str(s) => assert Print(j) + k == QuoteOnto(s, k);
    case Arr(items) => ArrOntoIsPrint(j, k);
    case Obj(ms) => ObjOntoIsPrint(j, k);
    case _ =>
  }

  lemma {:induction false} ArrOntoIsPrint(j: Json, k: Text)
    requires j.Arr?
    ensures Onto(j, k) == Print(j) + k
    decreases j, 0
  {
    PrintUnfolds(j);
    var items, texts := j.items, Prints(j.items);
    assert Print(j) + k == [OPEN_BRACKET] + (Join(texts) + ([CLOSE_BRACKET] + k));
    if |items| > 0 {
      assert texts[1..] == Prints(items[1..]);
      ItemsOntoIsTail(items[1..], k);
      OntoIsPrint(items[0], ItemsOnto(items[1..], k));
      Assoc(texts[0], Tail(texts[1..]), [CLOSE_BRACKET] + k);
    } else {
      assert Join(texts) + ([CLOSE_BRACKET] + k) == [CLOSE_BRACKET] + k;
    }
  }

  lemma BracesOnto(j: Json, k: Text)
    requires j.Obj?
    ensures Print(j) + k == [OPEN_BRACE] + (Join(PrintedMembers(j.members)) + ([CLOSE_BRACE] + k))
  {
    PrintUnfolds(j);
    var text := Join(PrintedMembers(j.members));
    assert Print(j) == [OPEN_BRACE] + text + [CLOSE_BRACE];
    Assoc([OPEN_BRACE] + text, [CLOSE_BRACE], k);
    Assoc([OPEN_BRACE], text, [CLOSE_BRACE] + k);
  }

  lemma {:induction false} ObjOntoIsPrint(j: Json, k: Text)
    requires j.Obj?
    ensures Onto(j, k) == Print(j) + k
    decreases j, 0
  {
    var ms, texts := j.members, PrintedMembers(j.members);
    BracesOnto(j, k);
    if |ms| > 0 {
      assert texts[1..] == PrintedMembers(ms[1..]);
      MembersOntoIsTail(ms[1..], k);
      MemberOntoIsPrint(ms[0], MembersOnto(ms[1..], k));
      Assoc(texts[0], Tail(texts[1..]), [CLOSE_BRACE] + k);
    } else {
      assert Join(texts) + ([CLOSE_BRACE] + k) == [CLOSE_BRACE] + k;
    }
  }

  ghost function PrintedMembers(ms: seq<Member<Json>>): seq<Text> { MemberTexts(MapValues(Print, ms)) }

  lemma {:induction false} ItemsOntoIsTail(items: seq<Json>, k: Text)
    ensures ItemsOnto(items, k) == Tail(Prints(items)) + ([CLOSE_BRACKET] + k)
    decreases items, 0
  {
    var end := [CLOSE_BRACKET] + k;
    if |items| == 0 {
      assert [] + end == end;
    } else {
      var texts := Prints(items);
      assert texts[1..] == Prints(items[1..]);
      ItemsOntoIsTail(items[1..], k);
      OntoIsPrint(items[0], ItemsOnto(items[1..], k));
      Assoc([COMMA] + texts[0], Tail(texts[1..]), end);
      Assoc([COMMA], texts[0], Tail(texts[1..]) + end);
    }
  }

  lemma {:induction false} MemberOntoIsPrint(m: Member<Json>, k: Text)
    ensures MemberOnto(m, k) == MemberText(Member(m.key, Print(m.value))) + k
    decreases m, 2
  {
    OntoIsPrint(m.value, k);
    var v := Print(m.value);
    assert MemberText(Member(m.key, v)) + k == QuoteOnto(m.key, [COLON] + (v + k));
  }

  lemma {:induction false} MembersOntoIsTail(ms: seq<Member<Json>>, k: Text)
    ensures MembersOnto(ms, k) == Tail(PrintedMembers(ms)) + ([CLOSE_BRACE] + k)
    decreases ms, 0
  {
    var end := [CLOSE_BRACE] + k;
    if |ms| == 0 {
      assert [] + end == end;
    } else {
      var texts := PrintedMembers(ms);
      assert texts[1..] == PrintedMembers(ms[1..]);
      MembersOntoIsTail(ms[1..], k);
      MemberOntoIsPrint(ms[0], MembersOnto(ms[1..], k));
      Assoc([COMMA] + texts[0], Tail(texts[1..]), end);
      Assoc([COMMA], texts[0], Tail(texts[1..]) + end);
    }
  }

  /** The first unit tells the kind of value. */
  ghost predicate Opens(j: Json, u: Unit) {
    match j
    case Null => u == 0x6e
    case NonFinite => u == 0x6e
    case Bool(b) => u == (if b then 0x74 else 0x66)
    case Number(_) => Digit(u) || u == 0x2d
    case Str(_) => u == QUOTE
    case Arr(_) => u == OPEN_BRACKET
    case Obj(_) => u == OPEN_BRACE
  }

  lemma OntoOpens(j: Json, k: Text)
    requires Parsed(j)
    ensures |Onto(j, k)| > 0 && Opens(j, Onto(j, k)[0])
  {
  }

  lemma LiteralNotShorter(a: Text, x: Text, b: Text, y: Text)
    requires Literal(a) && Literal(b) && Stop(x) && a + x == b + y
    ensures |b| <= |a|
  {
    var t := b + y;
    assert forall i :: 0 <= i < |b| ==> NumberUnit(t[i]);
    assert |x| > 0 ==> (a + x)[|a|] == x[0];
  }

  lemma LiteralsEnd(a: Text, x: Text, b: Text, y: Text)
    requires Literal(a) && Literal(b) && Stop(x) && Stop(y) && a + x == b + y
    ensures a == b && x == y
  {
    LiteralNotShorter(a, x, b, y);
    LiteralNotShorter(b, y, a, x);
    Drop(a, x);
    Drop(b, y);
    assert a == (a + x)[..|a|] && b == (b + y)[..|b|];
  }

  lemma QuotesEnd(a: Text, x: Text, b: Text, y: Text)
    requires QuoteOnto(a, x) == QuoteOnto(b, y)
    ensures a == b && x == y
  {
    UnescapeEscape(a, x);
    UnescapeEscape(b, y);
    DropPrefix([QUOTE], Escape(a) + ([QUOTE] + x), Escape(b) + ([QUOTE] + y));
  }

  lemma DropPrefix(p: Text, x: Text, y: Text)
    requires p + x == p + y
    ensures x == y
  {
    Drop(p, x);
    Drop(p, y);
  }

  /** Finite values printed before a delimiter or the end can be told apart, and so can what follows. */
  lemma {:induction false} PrintEnds(a: Json, x: Text, b: Json, y: Text)
    requires Parsed(a) && Parsed(b) && Finite(a) && Finite(b) && Stop(x) && Stop(y)
    requires Onto(a, x) == Onto(b, y)
    ensures a == b && x == y
    decreases a, 1
  {
    OntoOpens(a, x);
    OntoOpens(b, y);
    match a
    case Null => DropPrefix(NULL_TEXT, x, y);
    case Bool(_) => DropPrefix(Print(a), x, y);
    case Number(t) => LiteralsEnd(t, x, b.literal, y);
    case Str(s) => QuotesEnd(s, x, b.s, y);
    case Arr(items) => ArraysEnd(items, x, b.items, y);
    case Obj(ms) => ObjectsEnd(ms, x, b.members, y);
  }

  lemma {:induction false} ArraysEnd(xs: seq<Json>, x: Text, ys: seq<Json>, y: Text)
    requires Parsed(Arr(xs)) && Parsed(Arr(ys)) && Finite(Arr(xs)) && Finite(Arr(ys))
    requires Onto(Arr(xs), x) == Onto(Arr(ys), y)
    ensures xs == ys && x == y
    decreases xs, 3
  {
    var rx := Onto(Arr(xs), x)[1..];
    if |xs| == 0 || |ys| == 0 {
      assert |xs| > 0 ==> rx == Onto(xs[0], ItemsOnto(xs[1..], x));
      assert |ys| > 0 ==> rx == Onto(ys[0], ItemsOnto(ys[1..], y));
      if |xs| > 0 { OntoOpens(xs[0], ItemsOnto(xs[1..], x)); }
      if |ys| > 0 { OntoOpens(ys[0], ItemsOnto(ys[1..], y)); }
      DropPrefix([OPEN_BRACKET], [CLOSE_BRACKET] + x, [CLOSE_BRACKET] + y);
      DropPrefix([CLOSE_BRACKET], x, y);
    } else {
      var kx, ky := ItemsOnto(xs[1..], x), ItemsOnto(ys[1..], y);
      DropPrefix([OPEN_BRACKET], Onto(xs[0], kx), Onto(ys[0], ky));
      PrintEnds(xs[0], kx, ys[0], ky);
      ItemsEnd(xs[1..], x, ys[1..], y);
      assert xs == [xs[0]] + xs[1..] && ys == [ys[0]] + ys[1..];
    }
  }

  lemma {:induction false} ItemsEnd(xs: seq<Json>, x: Text, ys: seq<Json>, y: Text)
    requires Parsed(Arr(xs)) && Parsed(Arr(ys)) && Finite(Arr(xs)) && Finite(Arr(ys))
    requires ItemsOnto(xs, x) == ItemsOnto(ys, y)
    ensures xs == ys && x == y
    decreases xs, 2
  {
    assert |xs| == 0 <==> ItemsOnto(xs, x)[0] == CLOSE_BRACKET;
    assert |ys| == 0 <==> ItemsOnto(ys, y)[0] == CLOSE_BRACKET;
    if |xs| == 0 {
      DropPrefix([CLOSE_BRACKET], x, y);
    } else {
      var kx, ky := ItemsOnto(xs[1..], x), ItemsOnto(ys[1..], y);
      DropPrefix([COMMA], Onto(xs[0], kx), Onto(ys[0], ky));
      PrintEnds(xs[0], kx, ys[0], ky);
      ItemsEnd(xs[1..], x, ys[1..], y);
      assert xs == [xs[0]] + xs[1..] && ys == [ys[0]] + ys[1..];
    }
  }

  /** Parsed and finite, except that keys may repeat: enough for telling texts apart. */
  ghost predicate GoodMembers(ms: seq<Member<Json>>) {
    forall i :: 0 <= i < |ms| ==> Parsed(ms[i].value) && Finite(ms[i].value)
  }

  lemma {:induction false} MemberEnds(m: Member<Json>, x: Text, n: Member<Json>, y: Text)
    requires GoodMembers([m]) && GoodMembers([n]) && Stop(x) && Stop(y)
    requires MemberOnto(m, x) == MemberOnto(n, y)
    ensures m == n && x == y
    decreases m, 2
  {
    assert GoodMembers([m]) && [m][0] == m && [n][0] == n;
    QuotesEnd(m.key, [COLON] + Onto(m.value, x), n.key, [COLON] + Onto(n.value, y));
    DropPrefix([COLON], Onto(m.value, x), Onto(n.value, y));
    PrintEnds(m.value, x, n.value, y);
  }

  lemma {:induction false} ObjectsEnd(ms: seq<Member<Json>>, x: Text, ns: seq<Member<Json>>, y: Text)
    requires GoodMembers(ms) && GoodMembers(ns)
    requires Onto(Obj(ms), x) == Onto(Obj(ns), y)
    ensures ms == ns && x == y
    decreases ms, 3
  {
    assert |ms| == 0 <==> Onto(Obj(ms), x)[1] == CLOSE_BRACE;
    assert |ns| == 0 <==> Onto(Obj(ns), y)[1] == CLOSE_BRACE;
    if |ms| == 0 {
      DropPrefix([OPEN_BRACE], [CLOSE_BRACE] + x, [CLOSE_BRACE] + y);
      DropPrefix([CLOSE_BRACE], x, y);
    } else {
      var kx, ky := MembersOnto(ms[1..], x), MembersOnto(ns[1..], y);
      DropPrefix([OPEN_BRACE], MemberOnto(ms[0], kx), MemberOnto(ns[0], ky));
      MemberEnds(ms[0], kx, ns[0], ky);
      MembersEnd(ms[1..], x, ns[1..], y);
      assert ms == [ms[0]] + ms[1..] && ns == [ns[0]] + ns[1..];
    }
  }

  lemma {:induction false} MembersEnd(ms: seq<Member<Json>>, x: Text, ns: seq<Member<Json>>, y: Text)
    requires GoodMembers(ms) && GoodMembers(ns)
    requires MembersOnto(ms, x) == MembersOnto(ns, y)
    ensures ms == ns && x == y
    decreases ms, 3
  {
    assert |ms| == 0 <==> MembersOnto(ms, x)[0] == CLOSE_BRACE;
    assert |ns| == 0 <==> MembersOnto(ns, y)[0] == CLOSE_BRACE;
    if |ms| == 0 {
      DropPrefix([CLOSE_BRACE], x, y);
    } else {
      var kx, ky := MembersOnto(ms[1..], x), MembersOnto(ns[1..], y);
      DropPrefix([COMMA], MemberOnto(ms[0], kx), MemberOnto(ns[0], ky));
      MemberEnds(ms[0], kx, ns[0], ky);
      MembersEnd(ms[1..], x, ns[1..], y);
      assert ms == [ms[0]] + ms[1..] && ns == [ns[0]] + ns[1..];
    }
  }

  /** JSON.stringify loses nothing of a parsed value with finite numbers. */
  lemma PrintInjective(a: Json, b: Json)
    requires Parsed(a) && Parsed(b) && Finite(a) && Finite(b)
    ensures Print(a) == Print(b) <==> a == b
  {
    if Print(a) == Print(b) {
      OntoIsPrint(a, []);
      OntoIsPrint(b, []);
      PrintEnds(a, [], b, []);
    }
  }
}
