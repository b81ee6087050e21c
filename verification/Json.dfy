/** The JSON reader as functions from the remaining input to a value and what is left,
    and the text the emitter primitives produce. */
module JsonSpec {

  const JSON_MAX_DEPTH: nat := 16
  const JSON_CONTAINER_MAX: nat := 64
  const I64_MAX: nat := 0x7FFF_FFFF_FFFF_FFFF

  datatype Error = UnexpectedToken | UnterminatedString | DepthExceeded | TrailingInput | Overflow

  datatype Value =
    | Null
    | Bool(b: bool)
    | Int(i: int)
    | Float(fixed: int)
    | Str(s: string)
    | Arr(items: seq<Value>)
    | Obj(pairs: seq<Pair>)

  datatype Pair = Pair(key: string, value: Value)

  datatype Parsed<+T> = Ok(value: T, rest: string) | Err(error: Error, rest: string)

  predicate IsWs(c: char) {
    c == ' ' || c == '\t' || c == '\n' || c == '\r'
  }

  predicate IsDigit(c: char) {
    '0' <= c <= '9'
  }

  function SkipWs(s: string): (r: string)
    ensures |r| <= |s| && (r != [] ==> !IsWs(r[0]))
  {
    if s != [] && IsWs(s[0]) then SkipWs(s[1..]) else s
  }

  // Strings

  /** The raw text up to the closing quote; an escaped character never closes. */
  function Scan(s: string): (r: Parsed<string>)
    ensures |r.rest| <= |s| && (r.Ok? ==> |r.rest| < |s|)
  {
    if s == [] then Err(UnterminatedString, [])
    else if s[0] == '"' then Ok([], s[1..])
    else if s[0] == '\\' then
      if |s| == 1 then Err(UnterminatedString, [])
      else
        var r := Scan(s[2..]);
        if r.Ok? then Ok(s[..2] + r.value, r.rest) else r
    else
      var r := Scan(s[1..]);
      if r.Ok? then Ok([s[0]] + r.value, r.rest) else r
  }

  function Unescape1(c: char): string {
    match c
    case '"' => "\""
    case '\\' => "\\"
    case '/' => "/"
    case 'n' => "\n"
    case 'r' => "\r"
    case 't' => "\t"
    case 'b' => "\U{8}"
    case 'f' => "\U{C}"
    case _ => ['\\', c]
  }

  function Unescape(raw: string): string {
    if raw == [] then []
    else if raw[0] == '\\' && |raw| > 1 then Unescape1(raw[1]) + Unescape(raw[2..])
    else [raw[0]] + Unescape(raw[1..])
  }

  function ParseString(s: string): (r: Parsed<string>)
    ensures |r.rest| <= |s| && (r.Ok? ==> |r.rest| < |s|)
  {
    if s == [] || s[0] != '"' then Err(UnexpectedToken, s)
    else
      var r := Scan(s[1..]);
      if r.Ok? then Ok(Unescape(r.value), r.rest) else r
  }

  // Numbers

  function Digit(c: char): nat
    requires IsDigit(c)
  {
    c as int - '0' as int
  }

  /** The integer digits, refusing the digit that would pass the limit. */
  function Digits(s: string, acc: nat, limit: nat): (r: Parsed<nat>)
    requires limit >= 9
    ensures |r.rest| <= |s| && (r.Ok? && acc <= limit ==> r.value <= limit)
    decreases |s|
  {
    if s == [] || !IsDigit(s[0]) then Ok(acc, s)
    else if acc > (limit - Digit(s[0])) / 10 then Err(Overflow, s)
    else Digits(s[1..], acc * 10 + Digit(s[0]), limit)
  }

  /** The fraction, scaled to millionths; digits past the sixth are consumed only. */
  function Fraction(s: string, acc: nat, scale: nat): (r: Parsed<nat>)
    ensures r.Ok? && |r.rest| <= |s|
    decreases |s|
  {
    if s == [] || !IsDigit(s[0]) then Ok(acc, s)
    else if scale > 0 then Fraction(s[1..], acc + Digit(s[0]) * scale, scale / 10)
    else Fraction(s[1..], acc, scale)
  }

  function SkipDigits(s: string): (r: string)
    ensures |r| <= |s|
  {
    if s != [] && IsDigit(s[0]) then SkipDigits(s[1..]) else s
  }

  function SkipExponent(s: string): (r: string)
    ensures |r| <= |s|
  {
    if s == [] || !(s[0] == 'e' || s[0] == 'E') then s
    else if |s| > 1 && (s[1] == '+' || s[1] == '-') then SkipDigits(s[2..])
    else SkipDigits(s[1..])
  }

  /** What may follow the integer digits: a fraction, an exponent that is consumed but
      not applied. Either makes the number a float. */
  function AfterWhole(s: string): (r: Parsed<(nat, bool)>)
    ensures r.Ok? && |r.rest| <= |s|
  {
    var dot := s != [] && s[0] == '.';
    var frac := if dot then Fraction(s[1..], 0, 100000) else Ok(0, s);
    var rest := SkipExponent(frac.rest);
    Ok((frac.value, |rest| < |s|), rest)
  }

  function ParseNumber(s: string): (r: Parsed<Value>)
    ensures |r.rest| <= |s| && (r.Ok? ==> |r.rest| < |s|)
  {
    var neg := s != [] && s[0] == '-';
    var s1 := if neg then s[1..] else s;
    var whole := Digits(s1, 0, if neg then I64_MAX + 1 else I64_MAX);
    if whole.Err? then Err(whole.error, whole.rest) else
    var after := AfterWhole(whole.rest);
    NumberValue(s, neg, whole.value, after.value.0, after.value.1, after.rest)
  }

  function NumberValue(s: string, neg: bool, whole: nat, frac: nat, isFloat: bool, rest: string): (r: Parsed<Value>)
    requires |rest| <= |s|
    ensures r.rest == rest && (r.Ok? ==> |rest| < |s|)
  {
    if |rest| == |s| || (|rest| + 1 == |s| && neg) then Err(UnexpectedToken, rest)
    else if isFloat then
      if whole > (I64_MAX - 999999) / 1000000 then Err(Overflow, rest)
      else
        var fixed := whole * 1000000 + frac;
        Ok(Float(if neg then 0 - fixed else fixed), rest)
    else Ok(Int(if neg then 0 - whole else whole), rest)
  }

  function Match(s: string, word: string): bool {
    word <= s
  }

  // Containers

  function ParseValue(s: string, depth: nat): (r: Parsed<Value>)
    ensures |r.rest| <= |s| && (r.Ok? ==> |r.rest| < |s|)
    decreases |s|, 3
  {
    var t := SkipWs(s);
    if t == [] then Err(UnexpectedToken, t)
    else if t[0] == '"' then
      var r := ParseString(t);
      if r.Ok? then Ok(Str(r.value), r.rest) else Err(r.error, r.rest)
    else if t[0] == '{' then ParseObject(t, depth)
    else if t[0] == '[' then ParseArray(t, depth)
    else if t[0] == '-' || IsDigit(t[0]) then ParseNumber(t)
    else if Match(t, "true") then Ok(Bool(true), t[4..])
    else if Match(t, "false") then Ok(Bool(false), t[5..])
    else if Match(t, "null") then Ok(Null, t[4..])
    else Err(UnexpectedToken, t)
  }

  /** After an element: a comma, or something else that ends the list. */
  function Separator(s: string): (r: Parsed<bool>)
    ensures |r.rest| <= |s| && (r.Ok? && r.value ==> |r.rest| < |s|)
  {
    var t := SkipWs(s);
    if t == [] then Err(UnexpectedToken, t)
    else if t[0] == ',' then Ok(true, SkipWs(t[1..]))
    else Ok(false, t)
  }

  function ParseArray(s: string, depth: nat): (r: Parsed<Value>)
    requires s != []
    ensures |r.rest| <= |s| && (r.Ok? ==> |r.rest| < |s|)
    decreases |s|, 2
  {
    if depth >= JSON_MAX_DEPTH then Err(DepthExceeded, s) else
    var r := ItemsOrNone(SkipWs(s[1..]), depth + 1);
    if r.Err? then Err(r.error, r.rest)
    else if r.rest == [] || r.rest[0] != ']' then Err(UnexpectedToken, r.rest)
    else Ok(Arr(r.value), r.rest[1..])
  }

  /** The elements, unless the bracket closes at once. */
  function ItemsOrNone(t: string, depth: nat): (r: Parsed<seq<Value>>)
    ensures |r.rest| <= |t|
    decreases |t|, 5
  {
    if t != [] && t[0] != ']' then ParseItems(t, depth, []) else Ok([], t)
  }

  /** The element loop, with the elements read so far. */
  function ParseItems(s: string, depth: nat, items: seq<Value>): (r: Parsed<seq<Value>>)
    ensures |r.rest| <= |s|
    decreases |s|, 4
  {
    if |items| >= JSON_CONTAINER_MAX then Err(Overflow, s) else
    var e := ParseValue(s, depth);
    if e.Err? then Err(e.error, e.rest) else
    var more := Separator(e.rest);
    if more.Err? then Err(more.error, more.rest)
    else if more.value then ParseItems(more.rest, depth, items + [e.value])
    else Ok(items + [e.value], more.rest)
  }

  function ParseObject(s: string, depth: nat): (r: Parsed<Value>)
    requires s != []
    ensures |r.rest| <= |s| && (r.Ok? ==> |r.rest| < |s|)
    decreases |s|, 2
  {
    if depth >= JSON_MAX_DEPTH then Err(DepthExceeded, s) else
    var r := PairsOrNone(SkipWs(s[1..]), depth + 1);
    if r.Err? then Err(r.error, r.rest)
    else if r.rest == [] || r.rest[0] != '}' then Err(UnexpectedToken, r.rest)
    else Ok(Obj(r.value), r.rest[1..])
  }

  /** The members, unless the brace closes at once. */
  function PairsOrNone(t: string, depth: nat): (r: Parsed<seq<Pair>>)
    ensures |r.rest| <= |t|
    decreases |t|, 6
  {
    if t != [] && t[0] != '}' then ParsePairs(t, depth, []) else Ok([], t)
  }

  /** A key and its colon. */
  function ParseKey(s: string): (r: Parsed<string>)
    ensures |r.rest| <= |s| && (r.Ok? ==> |r.rest| < |s|)
  {
    var k := ParseString(SkipWs(s));
    if k.Err? then k else
    var c := SkipWs(k.rest);
    if c == [] || c[0] != ':' then Err(UnexpectedToken, c) else Ok(k.value, SkipWs(c[1..]))
  }

  function ParsePair(s: string, depth: nat): (r: Parsed<Pair>)
    ensures |r.rest| <= |s| && (r.Ok? ==> |r.rest| < |s|)
    decreases |s|, 4
  {
    var k := ParseKey(s);
    if k.Err? then Err(k.error, k.rest) else
    var e := ParseValue(k.rest, depth);
    if e.Err? then Err(e.error, e.rest) else Ok(Pair(k.value, e.value), e.rest)
  }

  function ParsePairs(s: string, depth: nat, pairs: seq<Pair>): (r: Parsed<seq<Pair>>)
    ensures |r.rest| <= |s|
    decreases |s|, 5
  {
    if |pairs| >= JSON_CONTAINER_MAX then Err(Overflow, s) else
    var e := ParsePair(s, depth);
    if e.Err? then Err(e.error, e.rest) else
    var more := Separator(e.rest);
    if more.Err? then Err(more.error, more.rest)
    else if more.value then ParsePairs(more.rest, depth, pairs + [e.value])
    else Ok(pairs + [e.value], more.rest)
  }

  /** `json_parse`: one value and nothing but white space after it. */
  function Parse(input: string): (r: Parsed<Value>)
    ensures |r.rest| <= |input|
  {
    var r := ParseValue(input, 0);
    if r.Err? then r
    else
      var t := SkipWs(r.rest);
      if t != [] then Err(TrailingInput, t) else Ok(r.value, t)
  }

  lemma Assoc(a: string, b: string, c: string)
    ensures a + (b + c) == (a + b) + c
  {
  }

  /** Three texts appended one after the other. */
  lemma AppendThree(buf: string, a: string, b: string, c: string)
    ensures buf + a + b + c == buf + (a + b + c)
  {
    Assoc(buf, a, b);
    Assoc(buf, a + b, c);
  }
}

/** What the emitter primitives write, and what the reader makes of it. */
module JsonRoundTrip {
  import opened JsonSpec
  import opened JsonReads
  import opened Options
  import opened G = JsonGrammar

  const HEX := "0123456789abcdef"

  predicate IsControl(c: char) {
    (c as int) < 0x20
  }

  /** A control character without a short escape: it is written as \u00XX, which the
      reader does not decode. */
  predicate IsDirty(c: char) {
    IsControl(c) && c != '\n' && c != '\r' && c != '\t'
  }

  function Escape(c: char): (r: string)
    ensures r != []
  {
    if c == '"' then "\\\""
    else if c == '\\' then "\\\\"
    else if c == '\n' then "\\n"
    else if c == '\r' then "\\r"
    else if c == '\t' then "\\t"
    else if IsControl(c) then ['\\', 'u', '0', '0', HEX[c as int / 16], HEX[c as int % 16]]
    else [c]
  }

  function EscapeAll(s: string): string {
    if s == [] then [] else Escape(s[0]) + EscapeAll(s[1..])
  }

  function EmitString(s: string): string {
    ['"'] + EscapeAll(s) + ['"']
  }

  function EmitNat(n: nat): (r: string)
    ensures r != [] && forall i :: 0 <= i < |r| ==> IsDigit(r[i])
  {
    if n < 10 then [('0' as int + n) as char]
    else EmitNat(n / 10) + [('0' as int + n % 10) as char]
  }

  function EmitInt(i: int): (r: string)
    ensures r != []
  {
    if i < 0 then ['-'] + EmitNat(-i) else EmitNat(i)
  }

  function Emit(v: Value): string
    decreases v, 1
  {
    match v
    case Null => "null"
    case Bool(b) => if b then "true" else "false"
    case Int(i) => EmitInt(i)
    case Float(_) => ""
    case Str(s) => EmitString(s)
    case Arr(items) => ['['] + EmitItems(items) + [']']
    case Obj(pairs) => ['{'] + EmitPairs(pairs) + ['}']
  }

  function EmitItems(items: seq<Value>): string
    decreases items, 0
  {
    if items == [] then []
    else if |items| == 1 then Emit(items[0])
    else Emit(items[0]) + [','] + EmitItems(items[1..])
  }

  function EmitPair(p: Pair): string
    decreases p, 2
  {
    EmitString(p.key) + [':'] + Emit(p.value)
  }

  function EmitPairs(pairs: seq<Pair>): string
    decreases pairs, 0
  {
    if pairs == [] then []
    else if |pairs| == 1 then EmitPair(pairs[0])
    else EmitPair(pairs[0]) + [','] + EmitPairs(pairs[1..])
  }

  // Strings

  function Raws(w: string): seq<Piece> {
    if w == [] then [] else [Raw(w[0])] + Raws(w[1..])
  }

  /** The pieces a character is written as. */
  function Spelled(c: char): seq<Piece> {
    if c == '"' then [Quote]
    else if c == '\\' then [Backslash]
    else if c == '\n' then [Newline]
    else if c == '\r' then [Return]
    else if c == '\t' then [Tab]
    else if IsControl(c) then [Other('u')] + Raws(['0', '0', HEX[c as int / 16], HEX[c as int % 16]])
    else [Raw(c)]
  }

  function SpelledAll(s: string): seq<Piece> {
    if s == [] then [] else Spelled(s[0]) + SpelledAll(s[1..])
  }

  /** What a string comes back as: a dirty character comes back as its six-character
      escape, every other character as itself. */
  function CookString(s: string): string {
    if s == [] then []
    else (if IsDirty(s[0]) then Escape(s[0]) else [s[0]]) + CookString(s[1..])
  }

  lemma PiecesFirst(p: Piece, ps: seq<Piece>)
    ensures PiecesText([p] + ps) == PieceText(p) + PiecesText(ps) && PiecesMean([p] + ps) == PieceMeans(p) + PiecesMean(ps)
  {
    assert ([p] + ps)[1..] == ps;
  }

  lemma {:induction false} RawsRead(w: string, ps: seq<Piece>)
    ensures PiecesText(Raws(w) + ps) == w + PiecesText(ps) && PiecesMean(Raws(w) + ps) == w + PiecesMean(ps)
  {
    if w == [] {
      assert Raws(w) + ps == ps;
    } else {
      RawsRead(w[1..], ps);
      ConsJoin(Raws(w), Raw(w[0]), Raws(w[1..]), ps);
      PiecesFirst(Raw(w[0]), Raws(w[1..]) + ps);
      ConsJoin(w, w[0], w[1..], PiecesText(ps));
      ConsJoin(w, w[0], w[1..], PiecesMean(ps));
    }
  }

  lemma ConsJoin<T>(w: seq<T>, x: T, rest: seq<T>, t: seq<T>)
    requires w == [x] + rest
    ensures w + t == [x] + (rest + t)
  {
  }

  lemma {:induction false} RawsOk(w: string)
    requires forall i :: 0 <= i < |w| ==> w[i] != '"' && w[i] != '\\'
    ensures PiecesOk(Raws(w))
  {
    if w != [] { RawsOk(w[1..]); }
  }

  lemma HexIsPlain(n: nat)
    requires n < 16
    ensures HEX[n] != '"' && HEX[n] != '\\'
  {
  }

  lemma SpelledDirty(c: char, ps: seq<Piece>)
    requires IsDirty(c)
    ensures PiecesOk(Spelled(c)) && PiecesText(Spelled(c) + ps) == Escape(c) + PiecesText(ps)
    ensures PiecesMean(Spelled(c) + ps) == Escape(c) + PiecesMean(ps)
  {
    var w := ['0', '0', HEX[c as int / 16], HEX[c as int % 16]];
    HexIsPlain(c as int / 16);
    HexIsPlain(c as int % 16);
    RawsOk(w);
    RawsRead(w, ps);
    assert Spelled(c) + ps == [Other('u')] + (Raws(w) + ps);
    PiecesFirst(Other('u'), Raws(w) + ps);
    assert Escape(c) == ['\\', 'u'] + w;
    Assoc(['\\', 'u'], w, PiecesText(ps));
    Assoc(['\\', 'u'], w, PiecesMean(ps));
  }

  lemma SpelledClean(c: char, ps: seq<Piece>)
    requires !IsDirty(c)
    ensures PiecesOk(Spelled(c)) && PiecesText(Spelled(c) + ps) == Escape(c) + PiecesText(ps)
    ensures PiecesMean(Spelled(c) + ps) == [c] + PiecesMean(ps)
  {
    PiecesFirst(Spelled(c)[0], ps);
  }

  lemma {:induction false} SpelledString(s: string)
    ensures PiecesOk(SpelledAll(s)) && PiecesText(SpelledAll(s)) == EscapeAll(s) && PiecesMean(SpelledAll(s)) == CookString(s)
  {
    if s != [] {
      SpelledString(s[1..]);
      if IsDirty(s[0]) { SpelledDirty(s[0], SpelledAll(s[1..])); } else { SpelledClean(s[0], SpelledAll(s[1..])); }
    }
  }

  lemma QuotedIs(s: string)
    ensures QuotedText(SpelledAll(s)) == EmitString(s)
  {
    SpelledString(s);
    Assoc(['"'], EscapeAll(s), ['"']);
  }

  lemma ScanEscaped(s: string, post: string)
    ensures Scan(EscapeAll(s) + (['"'] + post)) == Ok(EscapeAll(s), post)
  {
    SpelledString(s);
    PiecesScan(SpelledAll(s), post);
  }

  lemma StringReads(s: string, post: string)
    ensures ParseString(EmitString(s) + post) == Ok(CookString(s), post)
  {
    SpelledString(s);
    QuotedIs(s);
    QuotedReads(SpelledAll(s), post);
  }

  ghost predicate Clean(s: string) {
    forall i :: 0 <= i < |s| ==> !IsDirty(s[i])
  }

  /** A string comes back unchanged exactly when it has no dirty character. */
  lemma {:induction false} CookStringSame(s: string)
    ensures |CookString(s)| >= |s|
    ensures CookString(s) == s <==> Clean(s)
    ensures |CookString(s)| == |s| ==> Clean(s)
  {
    if s != [] {
      CookStringSame(s[1..]);
      if IsDirty(s[0]) {
        assert |Escape(s[0])| == 6;
      } else {
        assert s == [s[0]] + s[1..];
        assert CookString(s)[1..] == CookString(s[1..]);
      }
    }
  }

  // Numbers

  ghost predicate IsI64(i: int) {
    -(I64_MAX as int) - 1 <= i <= I64_MAX
  }

  lemma {:induction false} ValueFromSnoc(acc: nat, ds: string, c: char)
    ensures ValueFrom(acc, ds + [c]) == ValueFrom(acc, ds) * 10 + DigitValue(c)
    decreases |ds|
  {
    if ds == [] {
      assert ds + [c] == [c] && [c][1..] == [];
    } else {
      ValueFromSnoc(acc * 10 + DigitValue(ds[0]), ds[1..], c);
      assert (ds + [c])[1..] == ds[1..] + [c];
    }
  }

  /** The digits printed have the value printed. */
  lemma {:induction false} PrintedValue(n: nat)
    ensures ValueFrom(0, EmitNat(n)) == n
  {
    var c := ('0' as int + n % 10) as char;
    assert DigitValue(c) == n % 10;
    if n < 10 {
      assert EmitNat(n) == [c] && EmitNat(n)[1..] == [];
    } else {
      PrintedValue(n / 10);
      ValueFromSnoc(0, EmitNat(n / 10), c);
    }
  }

  function Printed(i: int): Number {
    Number(i < 0, EmitNat(if i < 0 then -i else i), None, None)
  }

  lemma PrintedNumber(i: int)
    ensures NumberOk(Printed(i)) && NumberText(Printed(i)) == EmitInt(i) && NumberMeans(Printed(i)) == Int(i)
    ensures IsI64(i) ==> NumberFits(Printed(i))
  {
    var n := if i < 0 then -i else i;
    PrintedValue(n);
    ValueFromDecimal(0, EmitNat(n));
    assert EmitNat(n) + ([] + []) == EmitNat(n);
  }

  /** Every 64-bit integer reads back, the minimum included. */
  lemma IntReads(i: int, post: string)
    requires IsI64(i) && After(post)
    ensures ParseNumber(EmitInt(i) + post) == Ok(Int(i), post)
  {
    PrintedNumber(i);
    NumberReads(Printed(i), post);
  }

  // Values

  /** The values the emitter can print: 64-bit integers, no fixed-point numbers. */
  ghost predicate Emittable(v: Value)
    decreases v
  {
    match v
    case Int(i) => IsI64(i)
    case Float(_) => false
    case Arr(items) => forall j :: 0 <= j < |items| ==> Emittable(items[j])
    case Obj(pairs) => forall j :: 0 <= j < |pairs| ==> Emittable(pairs[j].value)
    case _ => true
  }

  /** The reader's limits: nesting below depth, and members per container. */
  ghost predicate Fits(v: Value, depth: nat)
    decreases v
  {
    match v
    case Arr(items) =>
      depth < JSON_MAX_DEPTH && |items| <= JSON_CONTAINER_MAX && forall j :: 0 <= j < |items| ==> Fits(items[j], depth + 1)
    case Obj(pairs) =>
      depth < JSON_MAX_DEPTH && |pairs| <= JSON_CONTAINER_MAX && forall j :: 0 <= j < |pairs| ==> Fits(pairs[j].value, depth + 1)
    case _ => true
  }

  /** What a value comes back as. */
  ghost function Cook(v: Value): Value
    decreases v, 1
  {
    match v
    case Str(s) => Str(CookString(s))
    case Arr(items) => Arr(CookItems(items))
    case Obj(pairs) => Obj(CookPairs(pairs))
    case _ => v
  }

  ghost function CookItems(items: seq<Value>): seq<Value>
    decreases items, 0
  {
    if items == [] then [] else [Cook(items[0])] + CookItems(items[1..])
  }

  ghost function CookPairs(pairs: seq<Pair>): seq<Pair>
    decreases pairs, 0
  {
    if pairs == [] then [] else [Pair(CookString(pairs[0].key), Cook(pairs[0].value))] + CookPairs(pairs[1..])
  }

  /** The text of a printed value, without any blank. */
  ghost function Compact(v: Value): Body
    decreases v, 1
  {
    match v
    case Null => Word(v)
    case Bool(_) => Word(v)
    case Int(i) => Num(Printed(i))
    case Float(_) => Word(Null)
    case Str(s) => Quoted(SpelledAll(s))
    case Arr(items) => List("", CompactItems(items))
    case Obj(pairs) => Record("", CompactPairs(pairs))
  }

  ghost function CompactItems(items: seq<Value>): (r: seq<Node>)
    ensures |r| == |items| && forall i :: 0 <= i < |r| ==> r[i] == Node("", Compact(items[i]), "")
    decreases items, 0
  {
    if items == [] then [] else [Node("", Compact(items[0]), "")] + CompactItems(items[1..])
  }

  ghost function CompactPairs(pairs: seq<Pair>): (r: seq<Member>)
    ensures |r| == |pairs|
    ensures forall i :: 0 <= i < |r| ==>
              r[i] == Member("", SpelledAll(pairs[i].key), "", Node("", Compact(pairs[i].value), ""))
    decreases pairs, 0
  {
    if pairs == [] then []
    else [Member("", SpelledAll(pairs[0].key), "", Node("", Compact(pairs[0].value), ""))] + CompactPairs(pairs[1..])
  }

  lemma Bare(b: Body)
    ensures NodeText(Node("", b, "")) == BodyText(b)
  {
  }

  /** A printed value is a text of the grammar that means its cooked form. */
  lemma {:induction false} PrintedText(v: Value)
    requires Emittable(v)
    ensures BodyOk(Compact(v)) && BodyText(Compact(v)) == Emit(v) && Means(Compact(v)) == Cook(v)
    decreases v, 1
  {
    match v
    case Int(i) => PrintedNumber(i);
    case Str(s) => SpelledString(s); QuotedIs(s);
    case Arr(items) =>
      PrintedItems(items);
      Assoc(['['], EmitItems(items), [']']);
    case Obj(pairs) =>
      PrintedPairs(pairs);
      Assoc(['{'], EmitPairs(pairs), ['}']);
    case _ =>
  }

  lemma {:induction false} PrintedItems(items: seq<Value>)
    requires forall j :: 0 <= j < |items| ==> Emittable(items[j])
    ensures ItemsOk(CompactItems(items)) && ItemsMean(CompactItems(items)) == CookItems(items)
    ensures EmitItems(items) == if items == [] then "" else ItemsText(CompactItems(items))
    decreases items, 0
  {
    if items != [] {
      PrintedText(items[0]);
      PrintedItems(items[1..]);
      Bare(Compact(items[0]));
      assert CompactItems(items)[1..] == CompactItems(items[1..]);
      Assoc(Emit(items[0]), [','], EmitItems(items[1..]));
    }
  }

  lemma {:induction false} PrintedPair(p: Pair)
    requires Emittable(p.value)
    ensures var m := Member("", SpelledAll(p.key), "", Node("", Compact(p.value), ""));
            && MemberOk(m) && MemberText(m) == EmitPair(p)
            && Means(m.value.body) == Cook(p.value) && PiecesMean(m.key) == CookString(p.key)
    decreases p, 2
  {
    PrintedText(p.value);
    SpelledString(p.key);
    QuotedIs(p.key);
    Bare(Compact(p.value));
    assert "" + ([':'] + Emit(p.value)) == [':'] + Emit(p.value);
    Assoc(EmitString(p.key), [':'], Emit(p.value));
  }

  lemma {:induction false} PrintedPairs(pairs: seq<Pair>)
    requires forall j :: 0 <= j < |pairs| ==> Emittable(pairs[j].value)
    ensures MembersOk(CompactPairs(pairs)) && MembersMean(CompactPairs(pairs)) == CookPairs(pairs)
    ensures EmitPairs(pairs) == if pairs == [] then "" else MembersText(CompactPairs(pairs))
    decreases pairs, 0
  {
    if pairs != [] {
      PrintedPair(pairs[0]);
      PrintedPairs(pairs[1..]);
      assert CompactPairs(pairs)[1..] == CompactPairs(pairs[1..]);
      Assoc(EmitPair(pairs[0]), [','], EmitPairs(pairs[1..]));
    }
  }

  /** It is within the reader's limits exactly when the value is. */
  lemma {:induction false} PrintedFits(v: Value, depth: nat)
    requires Emittable(v)
    ensures G.Fits(Compact(v), depth) <==> Fits(v, depth)
    decreases v, 1
  {
    match v
    case Int(i) => PrintedNumber(i);
    case Arr(items) => PrintedItemsFit(items, depth + 1);
    case Obj(pairs) => PrintedPairsFit(pairs, depth + 1);
    case _ =>
  }

  lemma {:induction false} PrintedItemsFit(items: seq<Value>, depth: nat)
    requires forall j :: 0 <= j < |items| ==> Emittable(items[j])
    ensures ItemsFit(CompactItems(items), depth) <==> forall j :: 0 <= j < |items| ==> Fits(items[j], depth)
    decreases items, 0
  {
    forall j | 0 <= j < |items|
      ensures G.Fits(CompactItems(items)[j].body, depth) <==> Fits(items[j], depth)
    {
      PrintedFits(items[j], depth);
    }
  }

  lemma {:induction false} PrintedPairsFit(pairs: seq<Pair>, depth: nat)
    requires forall j :: 0 <= j < |pairs| ==> Emittable(pairs[j].value)
    ensures MembersFit(CompactPairs(pairs), depth) <==> forall j :: 0 <= j < |pairs| ==> Fits(pairs[j].value, depth)
    decreases pairs, 0
  {
    forall j | 0 <= j < |pairs|
      ensures G.Fits(CompactPairs(pairs)[j].value.body, depth) <==> Fits(pairs[j].value, depth)
    {
      PrintedFits(pairs[j].value, depth);
    }
  }

  /** The central fact: what is printed reads back as its cooked form exactly when it
      is within the reader's limits, whatever blank, closer or comma follows. */
  lemma ValueReads(v: Value, depth: nat, post: string)
    requires Emittable(v) && After(post)
    ensures Fits(v, depth) ==> ParseValue(Emit(v) + post, depth) == Ok(Cook(v), post)
    ensures !Fits(v, depth) ==> ParseValue(Emit(v) + post, depth).Err?
  {
    PrintedText(v);
    PrintedFits(v, depth);
    FaultFits(Compact(v), depth);
    BodyReads(Compact(v), depth, post);
  }

  /** Every string in the value, keys included, is clean. */
  ghost predicate AllClean(v: Value)
    decreases v
  {
    match v
    case Str(s) => Clean(s)
    case Arr(items) => forall j :: 0 <= j < |items| ==> AllClean(items[j])
    case Obj(pairs) => forall j :: 0 <= j < |pairs| ==> Clean(pairs[j].key) && AllClean(pairs[j].value)
    case _ => true
  }

  lemma {:induction false} CookSame(v: Value)
    ensures Cook(v) == v <==> AllClean(v)
    decreases v, 1
  {
    match v
    case Str(s) => CookStringSame(s);
    case Arr(items) => CookItemsSame(items);
    case Obj(pairs) => CookPairsSame(pairs);
    case _ =>
  }

  lemma {:induction false} CookItemsSame(items: seq<Value>)
    ensures CookItems(items) == items <==> forall j :: 0 <= j < |items| ==> AllClean(items[j])
    decreases items, 0
  {
    if items != [] {
      CookSame(items[0]);
      CookItemsSame(items[1..]);
      assert items == [items[0]] + items[1..];
      assert CookItems(items)[1..] == CookItems(items[1..]);
      assert (forall j :: 0 <= j < |items| ==> AllClean(items[j]))
             <==> AllClean(items[0]) && forall j :: 0 <= j < |items[1..]| ==> AllClean(items[1..][j]);
    }
  }

  lemma {:induction false} CookPairsSame(pairs: seq<Pair>)
    ensures CookPairs(pairs) == pairs
            <==> forall j :: 0 <= j < |pairs| ==> Clean(pairs[j].key) && AllClean(pairs[j].value)
    decreases pairs, 0
  {
    if pairs != [] {
      var p := pairs[0];
      CookStringSame(p.key);
      CookSame(p.value);
      CookPairsSame(pairs[1..]);
      assert pairs == [p] + pairs[1..];
      assert CookPairs(pairs)[1..] == CookPairs(pairs[1..]);
      assert (forall j :: 0 <= j < |pairs| ==> Clean(pairs[j].key) && AllClean(pairs[j].value))
             <==> Clean(p.key) && AllClean(p.value) &&
                  forall j :: 0 <= j < |pairs[1..]| ==> Clean(pairs[1..][j].key) && AllClean(pairs[1..][j].value);
    }
  }

  /** The round trip, exactly: printing and parsing gives the value back if and only if
      it is nested at most 16 deep with at most 64 members per container and no string
      has a control character other than newline, carriage return and tab. */
  lemma RoundTrip(v: Value)
    requires Emittable(v)
    ensures Parse(Emit(v)) == Ok(v, []) <==> Fits(v, 0) && AllClean(v)
  {
    ValueReads(v, 0, []);
    assert Emit(v) + [] == Emit(v);
    CookSame(v);
  }
}

/** The reader as it runs: a position and a nesting depth moved through the input. */
module JsonParser {
  import opened JsonSpec
  import opened JsonSound
  import S = JsonSpec

  /** A failure carries the byte offset where it was noticed. */
  datatype Res<+T> = Val(value: T) | Fail(error: Error, offset: nat)

  class Parser {
    const input: string
    var pos: nat
    var depth: nat

    constructor (input: string)
      ensures this.input == input && pos == 0 && depth == 0
    {
      this.input := input;
      pos, depth := 0, 0;
    }

    ghost function Rest(): string
      reads this
      requires pos <= |input|
    {
      input[pos..]
    }

    /** The outcome is the specified one: same value and same rest, or same error there. */
    ghost predicate Agrees<T>(r: Res<T>, p: Parsed<T>)
      reads this
      requires pos <= |input|
    {
      match p
      case Ok(v, rest) => r == Val(v) && Rest() == rest
      case Err(e, rest) => |rest| <= |input| && r == Fail(e, |input| - |rest|)
    }

    method SkipWhite()
      requires pos <= |input|
      modifies this`pos
      ensures old(pos) <= pos <= |input| && Rest() == SkipWs(old(Rest()))
    {
      while pos < |input| && IsWs(input[pos])
        invariant old(pos) <= pos <= |input| && SkipWs(Rest()) == SkipWs(old(Rest()))
      {
        assert Rest()[1..] == input[pos + 1..];
        pos := pos + 1;
      }
    }

    /** The scanning loop, from just after the opening quote to just after the closing one. */
    static method FindQuote(input: string, start: nat) returns (found: bool, end: nat)
      requires start <= |input|
      ensures start <= end <= |input|
      ensures found ==> start < end && Scan(input[start..]) == Ok(input[start..end - 1], input[end..])
      ensures !found ==> end == |input| && Scan(input[start..]) == Err(UnterminatedString, [])
    {
      ghost var scanned := Scan(input[start..]);
      ScanStart(input, start);
      end := start;
      while end < |input|
        invariant start <= end <= |input| && scanned == Prepend(input[start..end], Scan(input[end..]))
      {
        ScanUnfold(input, start, end);
        var c := input[end];
        end := end + 1;
        if c == '"' {
          return true, end;
        }
        if c == '\\' {
          if end == |input| {
            return false, end;
          }
          end := end + 1;
        }
      }
      assert input[end..] == [];
      return false, end;
    }

    method ScanRaw() returns (r: Res<string>)
      requires pos <= |input|
      modifies this`pos
      ensures old(pos) <= pos <= |input| && Agrees(r, Scan(old(Rest())))
    {
      var start := pos;
      var found, end := FindQuote(input, start);
      pos := end;
      return if found then Val(input[start..end - 1]) else Fail(UnterminatedString, end);
    }

    method ParseString() returns (r: Res<string>)
      requires pos <= |input|
      modifies this`pos
      ensures old(pos) <= pos <= |input| && Agrees(r, S.ParseString(old(Rest())))
    {
      if pos == |input| || input[pos] != '"' {
        return Fail(UnexpectedToken, pos);
      }
      assert Rest()[1..] == input[pos + 1..];
      pos := pos + 1;
      var raw := ScanRaw();
      if raw.Fail? {
        return raw;
      }
      var text := Unescaped(raw.value);
      return Val(text);
    }

    method Unescaped(raw: string) returns (out: string)
      ensures out == Unescape(raw)
    {
      out := [];
      var i := 0;
      while i < |raw|
        invariant 0 <= i <= |raw|
        invariant Unescape(raw) == out + Unescape(raw[i..])
      {
        UnescapeTurn(raw, i, out);
        if raw[i] == '\\' && i + 1 < |raw| {
          out := out + Unescape1(raw[i + 1]);
          i := i + 2;
        } else {
          out := out + [raw[i]];
          i := i + 1;
        }
      }
    }

    method ReadDigits(limit: nat) returns (r: Res<nat>)
      requires pos <= |input| && limit >= 9
      modifies this`pos
      ensures old(pos) <= pos <= |input| && Agrees(r, Digits(old(Rest()), 0, limit))
    {
      var acc: nat := 0;
      while pos < |input| && IsDigit(input[pos])
        invariant old(pos) <= pos <= |input|
        invariant Digits(Rest(), acc, limit) == Digits(old(Rest()), 0, limit)
      {
        assert Rest()[1..] == input[pos + 1..];
        if acc > (limit - Digit(input[pos])) / 10 {
          return Fail(Overflow, pos);
        }
        acc := acc * 10 + Digit(input[pos]);
        pos := pos + 1;
      }
      return Val(acc);
    }

    method ReadFraction() returns (frac: nat)
      requires pos <= |input|
      modifies this`pos
      ensures old(pos) <= pos <= |input| && Ok(frac, Rest()) == Fraction(old(Rest()), 0, 100000)
    {
      frac := 0;
      var scale: nat := 100000;
      while pos < |input| && IsDigit(input[pos])
        invariant old(pos) <= pos <= |input|
        invariant Fraction(Rest(), frac, scale) == Fraction(old(Rest()), 0, 100000)
      {
        assert Rest()[1..] == input[pos + 1..];
        if scale > 0 {
          frac := frac + Digit(input[pos]) * scale;
          scale := scale / 10;
        }
        pos := pos + 1;
      }
    }

    method SkipExponentPart()
      requires pos <= |input|
      modifies this`pos
      ensures old(pos) <= pos <= |input| && Rest() == SkipExponent(old(Rest()))
    {
      if pos < |input| && (input[pos] == 'e' || input[pos] == 'E') {
        assert Rest()[1..] == input[pos + 1..];
        pos := pos + 1;
        if pos < |input| && (input[pos] == '+' || input[pos] == '-') {
          assert old(Rest())[2..] == input[pos + 1..];
          pos := pos + 1;
        }
        ghost var from := Rest();
        while pos < |input| && IsDigit(input[pos])
          invariant old(pos) <= pos <= |input| && SkipDigits(Rest()) == SkipDigits(from)
        {
          assert Rest()[1..] == input[pos + 1..];
          pos := pos + 1;
        }
      }
    }

    method ReadAfterWhole() returns (frac: nat, isFloat: bool)
      requires pos <= |input|
      modifies this`pos
      ensures old(pos) <= pos <= |input| && Ok((frac, isFloat), Rest()) == AfterWhole(old(Rest()))
    {
      var start := pos;
      frac := 0;
      if pos < |input| && input[pos] == '.' {
        assert Rest()[1..] == input[pos + 1..];
        pos := pos + 1;
        frac := ReadFraction();
      }
      SkipExponentPart();
      isFloat := pos > start;
    }

    method ParseNumber() returns (r: Res<Value>)
      requires pos <= |input|
      modifies this`pos
      ensures old(pos) <= pos <= |input| && Agrees(r, S.ParseNumber(old(Rest())))
    {
      var start := pos;
      var neg := pos < |input| && input[pos] == '-';
      if neg {
        assert Rest()[1..] == input[pos + 1..];
        pos := pos + 1;
      }
      var whole := ReadDigits(if neg then I64_MAX + 1 else I64_MAX);
      if whole.Fail? {
        return Fail(whole.error, whole.offset);
      }
      var frac, isFloat := ReadAfterWhole();
      r := NumberOf(start, neg, whole.value, frac, isFloat);
    }

    method NumberOf(start: nat, neg: bool, whole: nat, frac: nat, isFloat: bool) returns (r: Res<Value>)
      requires start <= pos <= |input|
      ensures Agrees(r, NumberValue(input[start..], neg, whole, frac, isFloat, Rest()))
    {
      if pos == start || (pos == start + 1 && neg) {
        return Fail(UnexpectedToken, pos);
      }
      if isFloat {
        if whole > (I64_MAX - 999999) / 1000000 {
          return Fail(Overflow, pos);
        }
        var fixed := whole * 1000000 + frac;
        return Val(Float(if neg then 0 - fixed else fixed));
      }
      return Val(Int(if neg then 0 - whole else whole));
    }

    method MatchWord(word: string) returns (ok: bool)
      requires pos <= |input|
      modifies this`pos
      ensures ok <==> word <= old(Rest())
      ensures old(pos) <= pos <= |input|
      ensures if ok then Rest() == old(Rest())[|word|..] else pos == old(pos)
    {
      if pos + |word| > |input| {
        return false;
      }
      var i := 0;
      while i < |word|
        invariant 0 <= i <= |word| && forall j :: 0 <= j < i ==> word[j] == Rest()[j]
      {
        if input[pos + i] != word[i] {
          assert Rest()[i] != word[i];
          return false;
        }
        i := i + 1;
      }
      assert Rest()[|word|..] == input[pos + |word|..];
      pos := pos + |word|;
      return true;
    }

    method ParseValue() returns (r: Res<Value>)
      requires pos <= |input|
      modifies this
      ensures old(pos) <= pos <= |input| && Agrees(r, S.ParseValue(old(Rest()), old(depth)))
      ensures r.Val? ==> depth == old(depth) && old(pos) < pos
      decreases |input| - pos, 3
    {
      ghost var s := Rest();
      SkipWhite();
      if pos == |input| {
        return Fail(UnexpectedToken, pos);
      }
      var c := input[pos];
      assert Rest()[0] == c;
      if c == '"' {
        var str := ParseString();
        return match str case Val(t) => Val(Str(t)) case Fail(e, o) => Fail(e, o);
      }
      if c == '{' {
        r := ParseObject();
        return;
      }
      if c == '[' {
        r := ParseArray();
        return;
      }
      if c == '-' || IsDigit(c) {
        r := ParseNumber();
        return;
      }
      var ok := MatchWord("true");
      if ok {
        return Val(Bool(true));
      }
      ok := MatchWord("false");
      if ok {
        return Val(Bool(false));
      }
      ok := MatchWord("null");
      if ok {
        return Val(Null);
      }
      return Fail(UnexpectedToken, pos);
    }

    method ReadSeparator() returns (r: Res<bool>)
      requires pos <= |input|
      modifies this`pos
      ensures old(pos) <= pos <= |input| && Agrees(r, Separator(old(Rest())))
    {
      SkipWhite();
      if pos == |input| {
        return Fail(UnexpectedToken, pos);
      }
      if input[pos] != ',' {
        return Val(false);
      }
      assert Rest()[1..] == input[pos + 1..];
      pos := pos + 1;
      SkipWhite();
      return Val(true);
    }

    /** Moves past the character c if it comes next. */
    method Expect(c: char) returns (ok: bool)
      requires pos <= |input|
      modifies this`pos
      ensures old(pos) <= pos <= |input| && (ok <==> old(Rest()) != [] && old(Rest())[0] == c)
      ensures if ok then pos == old(pos) + 1 && Rest() == old(Rest())[1..] else pos == old(pos)
    {
      ok := pos < |input| && input[pos] == c;
      if ok {
        assert Rest()[1..] == input[pos + 1..];
        pos := pos + 1;
      }
    }

    method ItemsOrNone() returns (r: Res<seq<Value>>)
      requires pos <= |input|
      modifies this
      ensures old(pos) <= pos <= |input| && Agrees(r, S.ItemsOrNone(old(Rest()), old(depth)))
      ensures r.Val? ==> depth == old(depth)
      decreases |input| - pos, 5
    {
      if pos < |input| && input[pos] != ']' {
        r := ParseItems();
      } else {
        r := Val([]);
      }
    }

    method PairsOrNone() returns (r: Res<seq<Pair>>)
      requires pos <= |input|
      modifies this
      ensures old(pos) <= pos <= |input| && Agrees(r, S.PairsOrNone(old(Rest()), old(depth)))
      ensures r.Val? ==> depth == old(depth)
      decreases |input| - pos, 6
    {
      if pos < |input| && input[pos] != '}' {
        r := ParsePairs();
      } else {
        r := Val([]);
      }
    }

    method ParseArray() returns (r: Res<Value>)
      requires pos < |input|
      modifies this
      ensures old(pos) <= pos <= |input| && Agrees(r, S.ParseArray(old(Rest()), old(depth)))
      ensures r.Val? ==> depth == old(depth) && old(pos) < pos
      decreases |input| - pos, 2
    {
      if depth >= JSON_MAX_DEPTH {
        return Fail(DepthExceeded, pos);
      }
      assert Rest()[1..] == input[pos + 1..];
      depth := depth + 1;
      pos := pos + 1;
      SkipWhite();
      var list := ItemsOrNone();
      if list.Fail? {
        return Fail(list.error, list.offset);
      }
      depth := depth - 1;
      var closed := Expect(']');
      if !closed {
        return Fail(UnexpectedToken, pos);
      }
      return Val(Arr(list.value));
    }

    /** The element loop. */
    method ParseItems() returns (r: Res<seq<Value>>)
      requires pos <= |input|
      modifies this
      ensures old(pos) <= pos <= |input| && Agrees(r, S.ParseItems(old(Rest()), old(depth), []))
      ensures r.Val? ==> depth == old(depth)
      decreases |input| - pos, 4
    {
      var items: seq<Value> := [];
      while true
        invariant old(pos) <= pos <= |input| && depth == old(depth)
        invariant S.ParseItems(Rest(), depth, items) == S.ParseItems(old(Rest()), old(depth), [])
        decreases |input| - pos
      {
        if |items| >= JSON_CONTAINER_MAX {
          return Fail(Overflow, pos);
        }
        var e := ParseValue();
        if e.Fail? {
          return Fail(e.error, e.offset);
        }
        items := items + [e.value];
        var more := ReadSeparator();
        if more.Fail? {
          return Fail(more.error, more.offset);
        }
        if !more.value {
          return Val(items);
        }
      }
    }

    method ParseObject() returns (r: Res<Value>)
      requires pos < |input|
      modifies this
      ensures old(pos) <= pos <= |input| && Agrees(r, S.ParseObject(old(Rest()), old(depth)))
      ensures r.Val? ==> depth == old(depth) && old(pos) < pos
      decreases |input| - pos, 2
    {
      if depth >= JSON_MAX_DEPTH {
        return Fail(DepthExceeded, pos);
      }
      assert Rest()[1..] == input[pos + 1..];
      depth := depth + 1;
      pos := pos + 1;
      SkipWhite();
      var list := PairsOrNone();
      if list.Fail? {
        return Fail(list.error, list.offset);
      }
      depth := depth - 1;
      var closed := Expect('}');
      if !closed {
        return Fail(UnexpectedToken, pos);
      }
      return Val(Obj(list.value));
    }

    method ParseKey() returns (r: Res<string>)
      requires pos <= |input|
      modifies this`pos
      ensures old(pos) <= pos <= |input| && Agrees(r, S.ParseKey(old(Rest())))
    {
      SkipWhite();
      var k := ParseString();
      if k.Fail? {
        return k;
      }
      SkipWhite();
      var colon := Expect(':');
      if !colon {
        return Fail(UnexpectedToken, pos);
      }
      SkipWhite();
      return k;
    }

    method ParsePair() returns (r: Res<Pair>)
      requires pos <= |input|
      modifies this
      ensures old(pos) <= pos <= |input| && Agrees(r, S.ParsePair(old(Rest()), old(depth)))
      ensures r.Val? ==> depth == old(depth) && old(pos) < pos
      decreases |input| - pos, 4
    {
      var k := ParseKey();
      if k.Fail? {
        return Fail(k.error, k.offset);
      }
      var e := ParseValue();
      if e.Fail? {
        return Fail(e.error, e.offset);
      }
      return Val(Pair(k.value, e.value));
    }

    method ParsePairs() returns (r: Res<seq<Pair>>)
      requires pos <= |input|
      modifies this
      ensures old(pos) <= pos <= |input| && Agrees(r, S.ParsePairs(old(Rest()), old(depth), []))
      ensures r.Val? ==> depth == old(depth)
      decreases |input| - pos, 5
    {
      var pairs: seq<Pair> := [];
      while true
        invariant old(pos) <= pos <= |input| && depth == old(depth)
        invariant S.ParsePairs(Rest(), depth, pairs) == S.ParsePairs(old(Rest()), old(depth), [])
        decreases |input| - pos
      {
        if |pairs| >= JSON_CONTAINER_MAX {
          return Fail(Overflow, pos);
        }
        var e := ParsePair();
        if e.Fail? {
          return Fail(e.error, e.offset);
        }
        pairs := pairs + [e.value];
        var more := ReadSeparator();
        if more.Fail? {
          return Fail(more.error, more.offset);
        }
        if !more.value {
          return Val(pairs);
        }
      }
    }
  }

  /** `json_parse` accepts exactly the texts of the grammar within its limits, with their
      meaning, and otherwise gives the specified error with its offset; being a method, it
      also terminates on every input. */
  method JsonParse(input: string) returns (r: Res<Value>)
    ensures match S.Parse(input)
            case Ok(v, _) => r == Val(v)
            case Err(e, rest) => |rest| <= |input| && r == Fail(e, |input| - |rest|)
    ensures forall v :: r == Val(v) <==> Reads(input, v)
  {
    forall v
      ensures S.Parse(input) == Ok(v, []) <==> Reads(input, v)
      ensures S.Parse(input).Ok? ==> S.Parse(input).rest == []
    {
      ParseIsGrammar(input, v);
    }
    var p := new Parser(input);
    assert input[0..] == input;
    r := p.ParseValue();
    if r.Fail? {
      return;
    }
    p.SkipWhite();
    if p.pos != |input| {
      return Fail(TrailingInput, p.pos);
    }
  }

  /** A scan result with the text already passed put in front. */
  ghost function Prepend(w: string, p: Parsed<string>): Parsed<string> {
    if p.Ok? then Ok(w + p.value, p.rest) else p
  }

  /** One turn of the unescaping loop at position i, with `out` written so far. */
  lemma UnescapeTurn(raw: string, i: nat, out: string)
    requires i < |raw|
    ensures out + Unescape(raw[i..]) ==
            if raw[i] == '\\' && i + 1 < |raw| then (out + Unescape1(raw[i + 1])) + Unescape(raw[i + 2..])
            else (out + [raw[i]]) + Unescape(raw[i + 1..])
  {
    var s := raw[i..];
    if raw[i] == '\\' && i + 1 < |raw| {
      assert s[2..] == raw[i + 2..];
      Assoc(out, Unescape1(raw[i + 1]), Unescape(raw[i + 2..]));
    } else {
      assert s[1..] == raw[i + 1..];
      Assoc(out, [raw[i]], Unescape(raw[i + 1..]));
    }
  }

  lemma ScanStart(input: string, start: nat)
    requires start <= |input|
    ensures Prepend(input[start..start], Scan(input[start..])) == Scan(input[start..])
  {
    var r := Scan(input[start..]);
    if r.Ok? { assert input[start..start] + r.value == r.value; }
  }

  /** One turn of the scan at position pos of a text that began at start. */
  lemma ScanUnfold(input: string, start: nat, pos: nat)
    requires start <= pos < |input|
    ensures var p := Prepend(input[start..pos], Scan(input[pos..]));
            if input[pos] == '"' then p == Ok(input[start..pos], input[pos + 1..])
            else if input[pos] != '\\' then p == Prepend(input[start..pos + 1], Scan(input[pos + 1..]))
            else if pos + 1 == |input| then p == Err(UnterminatedString, [])
            else p == Prepend(input[start..pos + 2], Scan(input[pos + 2..]))
  {
    var s, w := input[pos..], input[start..pos];
    assert s[1..] == input[pos + 1..];
    if input[pos] == '"' {
      assert w + [] == w;
    } else if input[pos] == '\\' && pos + 1 < |input| {
      assert s[2..] == input[pos + 2..];
      assert w + s[..2] == input[start..pos + 2];
      if Scan(s[2..]).Ok? { Assoc(w, s[..2], Scan(s[2..]).value); }
    } else {
      assert w + [s[0]] == input[start..pos + 1];
      if Scan(s[1..]).Ok? { Assoc(w, [s[0]], Scan(s[1..]).value); }
    }
  }
}

/** The emitter primitives, appending to a buffer with room to spare, and a printer that
    composes them. */
module JsonEmitter {
  import opened JsonSpec
  import opened JsonRoundTrip

  class Emitter {
    var buf: string

    constructor ()
      ensures buf == ""
    {
      buf := "";
    }

    method EmitRaw(s: string)
      modifies this
      ensures buf == old(buf) + s
    {
      buf := buf + s;
    }

    /** `json_emit_string`. */
    method JsonEmitString(s: string)
      modifies this
      ensures buf == old(buf) + EmitString(s)
    {
      EmitRaw("\"");
      EmitEscaped(s);
      EmitRaw("\"");
      AppendThree(old(buf), "\"", EscapeAll(s), "\"");
    }

    /** The character loop of `json_emit_string`. */
    method EmitEscaped(s: string)
      modifies this
      ensures buf == old(buf) + EscapeAll(s)
    {
      var i := 0;
      assert s[..0] == [] && s[..|s|] == s;
      while i < |s|
        invariant 0 <= i <= |s| && buf == old(buf) + EscapeAll(s[..i])
      {
        EscapeAllSnoc(s[..i], s[i]);
        assert s[..i + 1] == s[..i] + [s[i]];
        Assoc(old(buf), EscapeAll(s[..i]), Escape(s[i]));
        EmitRaw(Escape(s[i]));
        i := i + 1;
      }
    }

    /** `json_emit_int`: digits are produced from the last one backwards. */
    method JsonEmitInt(val: int)
      modifies this
      ensures buf == old(buf) + EmitInt(val)
    {
      var left: nat := if val < 0 then -(val + 1) + 1 else val;
      ghost var all := left;
      var text := [('0' as int + left % 10) as char];
      left := left / 10;
      assert EmitNat(all) == (if left == 0 then [] else EmitNat(left)) + text;
      while left != 0
        invariant EmitNat(all) == (if left == 0 then [] else EmitNat(left)) + text
        decreases left
      {
        text := [('0' as int + left % 10) as char] + text;
        left := left / 10;
      }
      if val < 0 {
        text := ['-'] + text;
      }
      EmitRaw(text);
    }

    /** Any value without fixed-point numbers, by the primitives alone. */
    method Print(v: Value)
      modifies this
      ensures buf == old(buf) + Emit(v)
      decreases v, 1
    {
      match v {
        case Null => EmitRaw("null");
        case Bool(b) => EmitRaw(if b then "true" else "false");
        case Int(i) => JsonEmitInt(i);
        case Float(_) =>
          assert buf == old(buf) + [];
        case Str(s) => JsonEmitString(s);
        case Arr(items) =>
          EmitRaw("[");
          PrintItems(items);
          EmitRaw("]");
          AppendThree(old(buf), "[", EmitItems(items), "]");
        case Obj(pairs) =>
          EmitRaw("{");
          PrintPairs(pairs);
          EmitRaw("}");
          AppendThree(old(buf), "{", EmitPairs(pairs), "}");
      }
    }

    method PrintItems(items: seq<Value>)
      modifies this
      ensures buf == old(buf) + EmitItems(items)
      decreases items, 0
    {
      if items == [] {
        assert buf == old(buf) + [];
      } else {
        Print(items[0]);
        if |items| > 1 {
          EmitRaw(",");
          PrintItems(items[1..]);
          AppendThree(old(buf), Emit(items[0]), ",", EmitItems(items[1..]));
        }
      }
    }

    method PrintPair(p: Pair)
      modifies this
      ensures buf == old(buf) + EmitPair(p)
      decreases p, 2
    {
      JsonEmitString(p.key);
      EmitRaw(":");
      Print(p.value);
      AppendThree(old(buf), EmitString(p.key), ":", Emit(p.value));
    }

    method PrintPairs(pairs: seq<Pair>)
      modifies this
      ensures buf == old(buf) + EmitPairs(pairs)
      decreases pairs, 0
    {
      if pairs == [] {
        assert buf == old(buf) + [];
      } else {
        PrintPair(pairs[0]);
        if |pairs| > 1 {
          EmitRaw(",");
          PrintPairs(pairs[1..]);
          AppendThree(old(buf), EmitPair(pairs[0]), ",", EmitPairs(pairs[1..]));
        }
      }
    }
  }

  lemma {:induction false} EscapeAllSnoc(a: string, c: char)
    ensures EscapeAll(a + [c]) == EscapeAll(a) + Escape(c)
  {
    if a == [] {
      assert a + [c] == [c] && [c][1..] == [];
      assert EscapeAll([c]) == Escape(c) + [];
    } else {
      EscapeAllSnoc(a[1..], c);
      assert (a + [c])[1..] == a[1..] + [c];
      Assoc(Escape(a[0]), EscapeAll(a[1..]), Escape(c));
    }
  }
}

/** The emitter and the reader put together. */
module JsonLoop {
  import opened JsonSpec
  import opened JsonRoundTrip
  import opened JsonParser
  import opened JsonEmitter

  /** Printing any value the emitter can print and parsing the text gives the value back if
      and only if it is within the reader's limits and its strings are clean. */
  method PrintAndParse(v: Value) returns (r: Res<Value>)
    requires Emittable(v)
    ensures r == Val(v) <==> Fits(v, 0) && AllClean(v)
  {
    var e := new Emitter();
    e.Print(v);
    assert "" + Emit(v) == Emit(v);
    RoundTrip(v);
    r := JsonParse(e.buf);
    NothingLeft(e.buf);
  }

  lemma NothingLeft(input: string)
    ensures Parse(input).Ok? ==> Parse(input).rest == []
  {
  }
}
