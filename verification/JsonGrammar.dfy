/** JSON texts, described without the reader: a tree of tokens with the blanks between them,
    the text it spells and the value it means. */
module JsonGrammar {
  import opened JsonSpec
  import opened Options

  predicate BlankChar(c: char) {
    c == ' ' || c == '\t' || c == '\n' || c == '\r'
  }

  /** Any number of the four blank characters. */
  ghost predicate Blank(b: string) {
    forall i :: 0 <= i < |b| ==> BlankChar(b[i])
  }

  // Strings

  /** A piece of a quoted string: a character as it is, one of the eight short escapes, or
      a backslash before any other character. */
  datatype Piece =
    | Raw(c: char)
    | Quote
    | Backslash
    | Slash
    | Newline
    | Return
    | Tab
    | Backspace
    | FormFeed
    | Other(c: char)

  predicate PieceOk(p: Piece) {
    match p
    case Raw(c) => c != '"' && c != '\\'
    case Other(c) => c !in "\"\\/nrtbf"
    case _ => true
  }

  function PieceText(p: Piece): string {
    match p
    case Raw(c) => [c]
    case Quote => ['\\', '"']
    case Backslash => ['\\', '\\']
    case Slash => ['\\', '/']
    case Newline => ['\\', 'n']
    case Return => ['\\', 'r']
    case Tab => ['\\', 't']
    case Backspace => ['\\', 'b']
    case FormFeed => ['\\', 'f']
    case Other(c) => ['\\', c]
  }

  /** The character an escape stands for; an unknown one stands for itself. */
  function PieceMeans(p: Piece): string {
    match p
    case Raw(c) => [c]
    case Quote => [34 as char]
    case Backslash => [92 as char]
    case Slash => [47 as char]
    case Newline => [10 as char]
    case Return => [13 as char]
    case Tab => [9 as char]
    case Backspace => [8 as char]
    case FormFeed => [12 as char]
    case Other(c) => ['\\', c]
  }

  ghost predicate PiecesOk(ps: seq<Piece>) {
    forall i :: 0 <= i < |ps| ==> PieceOk(ps[i])
  }

  function PiecesText(ps: seq<Piece>): string {
    if ps == [] then [] else PieceText(ps[0]) + PiecesText(ps[1..])
  }

  function PiecesMean(ps: seq<Piece>): string {
    if ps == [] then [] else PieceMeans(ps[0]) + PiecesMean(ps[1..])
  }

  // Numbers

  datatype Exponent = Exponent(mark: char, sign: string, digits: string)

  datatype Number = Number(neg: bool, whole: string, frac: Option<string>, exp: Option<Exponent>)

  ghost predicate AllDigits(s: string) {
    forall i :: 0 <= i < |s| ==> '0' <= s[i] <= '9'
  }

  function Pow10(n: nat): (r: nat)
    ensures r > 0
  {
    if n == 0 then 1 else 10 * Pow10(n - 1)
  }

  function DigitValue(c: char): nat {
    if '0' <= c <= '9' then c as int - '0' as int else 0
  }

  /** The decimal value of a row of digits. */
  ghost function Decimal(s: string): nat {
    if s == [] then 0 else DigitValue(s[0]) * Pow10(|s| - 1) + Decimal(s[1..])
  }

  ghost predicate ExponentOk(e: Exponent) {
    (e.mark == 'e' || e.mark == 'E') && (e.sign == "" || e.sign == "+" || e.sign == "-") && AllDigits(e.digits)
  }

  /** Digits may be missing everywhere but in a number without a sign in front and in one
      that is a sign alone. */
  ghost predicate NumberOk(n: Number) {
    && AllDigits(n.whole)
    && (n.frac.Some? ==> AllDigits(n.frac.value))
    && (n.exp.Some? ==> ExponentOk(n.exp.value))
    && (n.whole != [] || (n.neg && (n.frac.Some? || n.exp.Some?)))
  }

  function FractionText(f: Option<string>): string {
    if f.None? then [] else ['.'] + f.value
  }

  function ExponentText(e: Option<Exponent>): string {
    if e.None? then [] else [e.value.mark] + (e.value.sign + e.value.digits)
  }

  function NumberText(n: Number): string {
    (if n.neg then ['-'] else []) + (n.whole + (FractionText(n.frac) + ExponentText(n.exp)))
  }

  function Quotient(a: nat, b: nat): nat
    requires b > 0
  {
    a / b
  }

  /** A fraction in whole millionths: its digits over a power of ten. */
  ghost function Millionths(f: Option<string>): nat {
    if f.None? then 0 else Quotient(Decimal(f.value) * 1000000, Pow10(|f.value|))
  }

  ghost predicate NumberFits(n: Number) {
    && Decimal(n.whole) <= (if n.neg then I64_MAX + 1 else I64_MAX)
    && (n.frac.Some? || n.exp.Some? ==> Decimal(n.whole) * 1000000 + 999999 <= I64_MAX)
  }

  /** A fraction or an exponent makes a number of millionths; the exponent is not applied. */
  ghost function NumberMeans(n: Number): Value {
    var sign: int := if n.neg then -1 else 1;
    if n.frac.Some? || n.exp.Some? then Float(sign * (Decimal(n.whole) * 1000000 + Millionths(n.frac)))
    else Int(sign * Decimal(n.whole))
  }

  // Values

  datatype Node = Node(pre: string, body: Body, post: string)

  datatype Body =
    | Word(value: Value)
    | Num(number: Number)
    | Quoted(pieces: seq<Piece>)
    | List(gap: string, items: seq<Node>)
    | Record(gap: string, members: seq<Member>)

  datatype Member = Member(pre: string, key: seq<Piece>, mid: string, value: Node)

  ghost predicate NodeOk(n: Node)
    decreases n
  {
    Blank(n.pre) && Blank(n.post) && BodyOk(n.body)
  }

  ghost predicate BodyOk(b: Body)
    decreases b
  {
    match b
    case Word(v) => v.Null? || v.Bool?
    case Num(n) => NumberOk(n)
    case Quoted(ps) => PiecesOk(ps)
    case List(gap, items) => Blank(gap) && forall i :: 0 <= i < |items| ==> NodeOk(items[i])
    case Record(gap, ms) => Blank(gap) && forall i :: 0 <= i < |ms| ==> MemberOk(ms[i])
  }

  ghost predicate MemberOk(m: Member)
    decreases m
  {
    Blank(m.pre) && Blank(m.mid) && PiecesOk(m.key) && NodeOk(m.value)
  }

  function QuotedText(ps: seq<Piece>): string {
    ['"'] + (PiecesText(ps) + ['"'])
  }

  function NodeText(n: Node): string
    decreases n
  {
    n.pre + (BodyText(n.body) + n.post)
  }

  function BodyText(b: Body): string
    decreases b, 2
  {
    match b
    case Word(v) => if v == Bool(true) then "true" else if v == Bool(false) then "false" else "null"
    case Num(n) => NumberText(n)
    case Quoted(ps) => QuotedText(ps)
    case List(gap, items) => ['['] + ((if items == [] then gap else ItemsText(items)) + [']'])
    case Record(gap, ms) => ['{'] + ((if ms == [] then gap else MembersText(ms)) + ['}'])
  }

  function ItemsText(items: seq<Node>): string
    requires items != []
    decreases items
  {
    if |items| == 1 then NodeText(items[0]) else NodeText(items[0]) + ([','] + ItemsText(items[1..]))
  }

  function MemberText(m: Member): string
    decreases m
  {
    m.pre + (QuotedText(m.key) + (m.mid + ([':'] + NodeText(m.value))))
  }

  function MembersText(ms: seq<Member>): string
    requires ms != []
    decreases ms
  {
    if |ms| == 1 then MemberText(ms[0]) else MemberText(ms[0]) + ([','] + MembersText(ms[1..]))
  }

  /** Within the reader's limits: numbers, nesting below depth, members per container. */
  ghost predicate Fits(b: Body, depth: nat)
    decreases b
  {
    match b
    case Num(n) => NumberFits(n)
    case List(_, items) =>
      depth < JSON_MAX_DEPTH && |items| <= JSON_CONTAINER_MAX &&
      forall i :: 0 <= i < |items| ==> Fits(items[i].body, depth + 1)
    case Record(_, ms) =>
      depth < JSON_MAX_DEPTH && |ms| <= JSON_CONTAINER_MAX &&
      forall i :: 0 <= i < |ms| ==> Fits(ms[i].value.body, depth + 1)
    case _ => true
  }

  /** The first limit a reading from left to right runs into, if any. */
  ghost function Fault(b: Body, depth: nat): Option<Error>
    decreases b, 1
  {
    match b
    case Num(n) => if NumberFits(n) then None else Some(Overflow)
    case List(_, items) => if depth >= JSON_MAX_DEPTH then Some(DepthExceeded) else ItemsFault(items, depth + 1, 0)
    case Record(_, ms) => if depth >= JSON_MAX_DEPTH then Some(DepthExceeded) else MembersFault(ms, depth + 1, 0)
    case _ => None
  }

  /** The same for the items of a container that has `count` already. */
  ghost function ItemsFault(items: seq<Node>, depth: nat, count: nat): Option<Error>
    decreases items, 0
  {
    if items == [] then None
    else if count >= JSON_CONTAINER_MAX then Some(Overflow)
    else
      var f := Fault(items[0].body, depth);
      if f.Some? then f else ItemsFault(items[1..], depth, count + 1)
  }

  ghost function MembersFault(ms: seq<Member>, depth: nat, count: nat): Option<Error>
    decreases ms, 0
  {
    if ms == [] then None
    else if count >= JSON_CONTAINER_MAX then Some(Overflow)
    else
      var f := Fault(ms[0].value.body, depth);
      if f.Some? then f else MembersFault(ms[1..], depth, count + 1)
  }

  ghost function Means(b: Body): Value
    decreases b, 1
  {
    match b
    case Word(v) => v
    case Num(n) => NumberMeans(n)
    case Quoted(ps) => Str(PiecesMean(ps))
    case List(_, items) => Arr(ItemsMean(items))
    case Record(_, ms) => Obj(MembersMean(ms))
  }

  ghost function ItemsMean(items: seq<Node>): seq<Value>
    decreases items, 0
  {
    if items == [] then [] else [Means(items[0].body)] + ItemsMean(items[1..])
  }

  ghost function MembersMean(ms: seq<Member>): seq<Pair>
    decreases ms, 0
  {
    if ms == [] then [] else [Pair(PiecesMean(ms[0].key), Means(ms[0].value.body))] + MembersMean(ms[1..])
  }
}
