/** Every text of the grammar is read as what it means, exactly when it is within the
    reader's limits. */
module JsonReads {
  import opened JsonSpec
  import opened JsonGrammar
  import opened Options
  import opened Powers

  /** What may follow a value. */
  predicate After(t: string) {
    t == [] || BlankChar(t[0]) || t[0] == ',' || t[0] == ']' || t[0] == '}'
  }

  lemma {:induction false} SkipBlank(b: string, s: string)
    requires Blank(b)
    ensures SkipWs(b + s) == SkipWs(s)
  {
    if b == [] {
      assert b + s == s;
    } else {
      SkipBlank(b[1..], s);
      assert BlankChar(b[0]) && (b + s)[1..] == b[1..] + s;
    }
  }

  lemma SkipStop(s: string)
    requires s != [] ==> !BlankChar(s[0])
    ensures SkipWs(s) == s
  {
  }

  /** Blanks and then a character that is not one. */
  lemma SkipTo(b: string, c: char, t: string)
    requires Blank(b) && !BlankChar(c)
    ensures SkipWs(b + ([c] + t)) == [c] + t && ([c] + t)[0] == c && ([c] + t)[1..] == t
  {
    SkipBlank(b, [c] + t);
    SkipStop([c] + t);
  }

  lemma BlankAfter(b: string, t: string)
    requires Blank(b) && After(t)
    ensures After(b + t)
  {
    if b != [] {
      assert (b + t)[0] == b[0];
    } else {
      assert b + t == t;
    }
  }

  // Strings

  lemma PieceScan(p: Piece, t: string)
    requires PieceOk(p) && Scan(t).Ok?
    ensures Scan(PieceText(p) + t) == Ok(PieceText(p) + Scan(t).value, Scan(t).rest)
  {
    var s := PieceText(p) + t;
    if p.Raw? {
      assert s[1..] == t;
    } else {
      assert s[2..] == t && s[..2] == PieceText(p);
    }
  }

  lemma {:induction false} PiecesScan(ps: seq<Piece>, tail: string)
    requires PiecesOk(ps)
    ensures Scan(PiecesText(ps) + (['"'] + tail)) == Ok(PiecesText(ps), tail)
  {
    var end := ['"'] + tail;
    if ps == [] {
      assert PiecesText(ps) + end == end && end[1..] == tail;
    } else {
      PiecesScan(ps[1..], tail);
      PieceScan(ps[0], PiecesText(ps[1..]) + end);
      Assoc(PieceText(ps[0]), PiecesText(ps[1..]), end);
    }
  }

  lemma PieceUnescape(p: Piece, t: string)
    requires PieceOk(p)
    ensures Unescape(PieceText(p) + t) == PieceMeans(p) + Unescape(t)
  {
    var s := PieceText(p) + t;
    if p.Raw? {
      assert s[1..] == t;
    } else {
      assert s[2..] == t;
      assert p.Other? ==> Unescape1(p.c) == ['\\', p.c];
    }
  }

  lemma {:induction false} PiecesUnescape(ps: seq<Piece>)
    requires PiecesOk(ps)
    ensures Unescape(PiecesText(ps)) == PiecesMean(ps)
  {
    if ps != [] {
      PiecesUnescape(ps[1..]);
      PieceUnescape(ps[0], PiecesText(ps[1..]));
    }
  }

  /** A quoted string reads as what its pieces mean. */
  lemma QuotedReads(ps: seq<Piece>, tail: string)
    requires PiecesOk(ps)
    ensures ParseString(QuotedText(ps) + tail) == Ok(PiecesMean(ps), tail)
  {
    PiecesScan(ps, tail);
    PiecesUnescape(ps);
    OpenQuote(PiecesText(ps), tail);
  }

  lemma OpenQuote(t: string, tail: string)
    ensures var s := ['"'] + (t + ['"']) + tail; s[0] == '"' && s[1..] == t + (['"'] + tail)
  {
  }

  // Numbers

  function ValueFrom(acc: nat, ds: string): (r: nat)
    ensures acc <= r
    decreases |ds|
  {
    if ds == [] then acc else ValueFrom(acc * 10 + DigitValue(ds[0]), ds[1..])
  }

  lemma TenTimes(acc: nat, d: nat, p: nat)
    ensures acc * (10 * p) + d * p == (acc * 10 + d) * p
  {
  }

  lemma {:induction false} ValueFromDecimal(acc: nat, ds: string)
    ensures ValueFrom(acc, ds) == acc * Pow10(|ds|) + Decimal(ds)
    decreases |ds|
  {
    if ds != [] {
      ValueFromDecimal(acc * 10 + DigitValue(ds[0]), ds[1..]);
      TenTimes(acc, DigitValue(ds[0]), Pow10(|ds| - 1));
    }
  }

  lemma OverLimit(acc: nat, d: nat, limit: nat)
    requires d <= 9 <= limit
    ensures acc > (limit - d) / 10 <==> acc * 10 + d > limit
  {
  }

  /** The digit loop: it goes through exactly when the number stays within the limit. */
  lemma {:induction false} DigitsRead(ds: string, acc: nat, limit: nat, tail: string)
    requires limit >= 9 && acc <= limit && AllDigits(ds) && (tail != [] ==> !IsDigit(tail[0]))
    ensures var r := Digits(ds + tail, acc, limit);
            if ValueFrom(acc, ds) <= limit then r == Ok(ValueFrom(acc, ds), tail) else r.Err? && r.error == Overflow
    decreases |ds|
  {
    if ds == [] {
      assert ds + tail == tail;
    } else {
      var next := acc * 10 + DigitValue(ds[0]);
      DigitsTurn(ds, acc, limit, tail);
      if next <= limit { DigitsRead(ds[1..], next, limit, tail); }
    }
  }

  /** One turn of the digit loop. */
  lemma DigitsTurn(ds: string, acc: nat, limit: nat, tail: string)
    requires limit >= 9 && ds != [] && AllDigits(ds)
    ensures var r, next := Digits(ds + tail, acc, limit), acc * 10 + DigitValue(ds[0]);
            if next <= limit then r == Digits(ds[1..] + tail, next, limit) else r.Err? && r.error == Overflow
  {
    OverLimit(acc, DigitValue(ds[0]), limit);
    assert (ds + tail)[0] == ds[0] && (ds + tail)[1..] == ds[1..] + tail;
  }

  lemma WholeReads(ds: string, limit: nat, tail: string)
    requires limit >= 9 && AllDigits(ds) && (tail != [] ==> !IsDigit(tail[0]))
    ensures var r := Digits(ds + tail, 0, limit);
            if Decimal(ds) <= limit then r == Ok(Decimal(ds), tail) else r.Err? && r.error == Overflow
  {
    DigitsRead(ds, 0, limit, tail);
    ValueFromDecimal(0, ds);
  }

  function FractionFrom(acc: nat, scale: nat, ds: string): nat
    decreases |ds|
  {
    if ds == [] then acc
    else FractionFrom(acc + (if scale > 0 then DigitValue(ds[0]) * scale else 0), scale / 10, ds[1..])
  }

  lemma {:induction false} FractionLoop(ds: string, acc: nat, scale: nat, tail: string)
    requires AllDigits(ds) && (tail != [] ==> !IsDigit(tail[0]))
    ensures Fraction(ds + tail, acc, scale) == Ok(FractionFrom(acc, scale, ds), tail)
    decreases |ds|
  {
    if ds == [] {
      assert ds + tail == tail;
    } else {
      assert (ds + tail)[0] == ds[0] && (ds + tail)[1..] == ds[1..] + tail;
      FractionLoop(ds[1..], acc + (if scale > 0 then DigitValue(ds[0]) * scale else 0), scale / 10, tail);
    }
  }

  lemma Below(d: nat, v: nat, p: nat)
    requires d <= 9 && v < p
    ensures d * p + v < 10 * p
  {
  }

  lemma {:induction false} DecimalBound(s: string)
    ensures Decimal(s) < Pow10(|s|)
  {
    if s != [] {
      DecimalBound(s[1..]);
      Below(DigitValue(s[0]), Decimal(s[1..]), Pow10(|s| - 1));
    }
  }

  /** The weight of the first of k decimal places. */
  function Scale(k: nat): nat {
    if k == 0 then 0 else Pow10(k - 1)
  }

  lemma ScaleDown(k: nat)
    ensures Scale(k) / 10 == if k == 0 then 0 else Scale(k - 1)
  {
  }

  /** What the loop adds up is the digits over a power of ten. */
  lemma {:induction false} FractionFromIs(acc: nat, k: nat, ds: string)
    ensures FractionFrom(acc, Scale(k), ds) == acc + Quotient(Decimal(ds) * Pow10(k), Pow10(|ds|))
    decreases |ds|
  {
    if ds == [] {
    } else if k == 0 {
      FractionFromIs(acc, 0, ds[1..]);
      DecimalBound(ds);
      DecimalBound(ds[1..]);
      Small(Decimal(ds), Pow10(|ds|));
      Small(Decimal(ds[1..]), Pow10(|ds| - 1));
    } else {
      ScaleDown(k);
      FractionFromIs(acc + DigitValue(ds[0]) * Pow10(k - 1), k - 1, ds[1..]);
      ScaleStep(DigitValue(ds[0]), Decimal(ds[1..]), Pow10(k - 1), Pow10(|ds| - 1));
    }
  }

  lemma Small(v: nat, p: nat)
    requires v < p
    ensures Quotient(v * 1, p) == 0
  {
    DivModUnique(v, p, 0, v);
  }

  /** (d p + v) 10 q / 10 p is d q + v q / p. */
  lemma ScaleStep(d: nat, v: nat, q: nat, p: nat)
    requires p > 0
    ensures Quotient((d * p + v) * (10 * q), 10 * p) == d * q + Quotient(v * q, p)
  {
    var m, r := v * q / p, v * q % p;
    assert v * q == m * p + r;
    assert (d * p + v) * (10 * q) == (d * q + m) * (10 * p) + 10 * r;
    DivModUnique((d * p + v) * (10 * q), 10 * p, d * q + m, 10 * r);
  }

  lemma Million()
    ensures Pow10(6) == 1000000 && Scale(6) == 100000
  {
    assert Pow10(0) == 1 && Pow10(1) == 10 && Pow10(2) == 100 && Pow10(3) == 1000;
    assert Pow10(4) == 10000 && Pow10(5) == 100000;
  }

  lemma {:induction false} DigitsSkipped(ds: string, tail: string)
    requires AllDigits(ds) && (tail != [] ==> !IsDigit(tail[0]))
    ensures SkipDigits(ds + tail) == tail
  {
    if ds == [] {
      assert ds + tail == tail;
    } else {
      assert (ds + tail)[0] == ds[0] && (ds + tail)[1..] == ds[1..] + tail;
      DigitsSkipped(ds[1..], tail);
    }
  }

  ghost predicate ExpOk(e: Option<Exponent>) {
    e.Some? ==> ExponentOk(e.value)
  }

  lemma ExponentPlain(mark: char, ds: string, tail: string)
    requires (mark == 'e' || mark == 'E') && AllDigits(ds) && After(tail)
    ensures SkipExponent([mark] + (ds + tail)) == tail
  {
    var s, t := [mark] + (ds + tail), ds + tail;
    assert s[1..] == t;
    assert |t| > 0 ==> s[1] == t[0] && (t[0] == if ds == [] then tail[0] else ds[0]);
    DigitsSkipped(ds, tail);
  }

  lemma ExponentSigned(mark: char, sign: char, ds: string, tail: string)
    requires (mark == 'e' || mark == 'E') && (sign == '+' || sign == '-') && AllDigits(ds) && After(tail)
    ensures SkipExponent([mark] + ([sign] + (ds + tail))) == tail
  {
    assert ([mark] + ([sign] + (ds + tail)))[2..] == ds + tail;
    DigitsSkipped(ds, tail);
  }

  lemma ExponentShape(x: Exponent, tail: string)
    ensures ExponentText(Some(x)) + tail == [x.mark] + (x.sign + (x.digits + tail))
    ensures x.sign == "" ==> x.sign + (x.digits + tail) == x.digits + tail
  {
  }

  /** An exponent is passed over. */
  lemma ExponentReads(e: Option<Exponent>, tail: string)
    requires ExpOk(e) && After(tail)
    ensures SkipExponent(ExponentText(e) + tail) == tail
  {
    if e.None? {
      assert ExponentText(e) + tail == tail;
    } else {
      var x := e.value;
      ExponentShape(x, tail);
      if x.sign == "" {
        ExponentPlain(x.mark, x.digits, tail);
      } else {
        ExponentSigned(x.mark, x.sign[0], x.digits, tail);
      }
    }
  }

  /** No digit and no point starts an exponent or what follows a value. */
  lemma ExponentHead(e: Option<Exponent>, tail: string)
    requires ExpOk(e) && After(tail)
    ensures var s := ExponentText(e) + tail; s != [] ==> !IsDigit(s[0]) && s[0] != '.'
  {
    var s := ExponentText(e) + tail;
    if e.None? {
      assert s == tail;
    } else {
      assert s[0] == e.value.mark;
    }
  }

  /** What follows the whole part. */
  function Tail(f: Option<string>, e: Option<Exponent>, tail: string): string {
    FractionText(f) + (ExponentText(e) + tail)
  }

  lemma FractionReads(ds: string, t: string)
    requires AllDigits(ds) && (t != [] ==> !IsDigit(t[0]))
    ensures Fraction(ds + t, 0, 100000) == Ok(Millionths(Some(ds)), t)
  {
    Million();
    FractionLoop(ds, 0, 100000, t);
    FractionFromIs(0, 6, ds);
  }

  lemma AfterPoint(ds: string, t: string, tail: string)
    requires AllDigits(ds) && (t != [] ==> !IsDigit(t[0])) && SkipExponent(t) == tail
    ensures AfterWhole(['.'] + (ds + t)) == Ok((Millionths(Some(ds)), true), tail)
  {
    assert (['.'] + (ds + t))[1..] == ds + t;
    FractionReads(ds, t);
  }

  lemma AfterNoPoint(t: string, tail: string)
    requires (t != [] ==> t[0] != '.') && SkipExponent(t) == tail
    ensures AfterWhole(t) == Ok((0, |tail| < |t|), tail)
  {
  }

  lemma TailReads(f: Option<string>, e: Option<Exponent>, tail: string)
    requires (f.Some? ==> AllDigits(f.value)) && ExpOk(e) && After(tail)
    ensures AfterWhole(Tail(f, e, tail)) == Ok((Millionths(f), f.Some? || e.Some?), tail)
    ensures Tail(f, e, tail) != [] ==> !IsDigit(Tail(f, e, tail)[0])
  {
    var t := ExponentText(e) + tail;
    ExponentReads(e, tail);
    ExponentHead(e, tail);
    if f.None? {
      assert Tail(f, e, tail) == t;
      AfterNoPoint(t, tail);
    } else {
      Assoc(['.'], f.value, t);
      AfterPoint(f.value, t, tail);
    }
  }

  lemma FloatLimit(w: nat)
    ensures w > (I64_MAX - 999999) / 1000000 <==> w * 1000000 + 999999 > I64_MAX
  {
  }

  lemma NumberFinish(n: Number, s: string, tail: string)
    requires NumberOk(n) && |s| > |tail| + (if n.neg then 1 else 0)
    requires Decimal(n.whole) <= if n.neg then I64_MAX + 1 else I64_MAX
    ensures var r := NumberValue(s, n.neg, Decimal(n.whole), Millionths(n.frac), n.frac.Some? || n.exp.Some?, tail);
            if NumberFits(n) then r == Ok(NumberMeans(n), tail) else r.Err? && r.error == Overflow
  {
    FloatLimit(Decimal(n.whole));
  }

  /** A number reads as what it means, exactly within the limits. */
  lemma NumberReads(n: Number, tail: string)
    requires NumberOk(n) && After(tail)
    ensures var r := ParseNumber(NumberText(n) + tail);
            if NumberFits(n) then r == Ok(NumberMeans(n), tail) else r.Err? && r.error == Overflow
  {
    var limit := if n.neg then I64_MAX + 1 else I64_MAX;
    TailReads(n.frac, n.exp, tail);
    NumberShape(n, tail);
    WholeReads(n.whole, limit, Tail(n.frac, n.exp, tail));
    if Decimal(n.whole) <= limit { NumberFinish(n, NumberText(n) + tail, tail); }
  }

  lemma NumberShape(n: Number, tail: string)
    requires NumberOk(n)
    ensures var s, t := NumberText(n) + tail, n.whole + Tail(n.frac, n.exp, tail);
            && s != [] && (s[0] == '-' <==> n.neg) && (n.neg || IsDigit(s[0])) && (if n.neg then s[1..] else s) == t
            && |s| > |tail| + (if n.neg then 1 else 0)
  {
    var f, e := FractionText(n.frac), ExponentText(n.exp);
    Assoc(f, e, tail);
    Assoc(n.whole, f + e, tail);
    SignShape(n.neg, n.whole + (f + e), tail);
    assert n.whole != [] || f != [] || e != [];
    if !n.neg { assert (n.whole + (f + e))[0] == n.whole[0]; }
  }

  lemma SignShape(neg: bool, w: string, tail: string)
    ensures var s := (if neg then ['-'] else []) + w + tail;
            (if neg then s != [] && s[0] == '-' && s[1..] == w + tail else s == w + tail && (w != [] ==> s[0] == w[0]))
  {
    assert [] + w == w;
  }

  // Values

  lemma WordReads(v: Value, depth: nat, tail: string)
    requires v.Null? || v.Bool?
    ensures ParseValue(BodyText(Word(v)) + tail, depth) == Ok(v, tail)
  {
    var w := BodyText(Word(v));
    var s := w + tail;
    assert s[0] == w[0];
    SkipStop(s);
    assert s[|w|..] == tail && w <= s;
  }

  lemma BodyHead(b: Body, tail: string)
    requires BodyOk(b)
    ensures var s := BodyText(b) + tail;
            && s != [] && !BlankChar(s[0]) && s[0] != ']' && s[0] != '}'
            && (s[0] == '"' <==> b.Quoted?) && (s[0] == '[' <==> b.List?) && (s[0] == '{' <==> b.Record?)
            && (s[0] == '-' || IsDigit(s[0]) <==> b.Num?)
  {
    var s := BodyText(b) + tail;
    if b.Num? { NumberShape(b.number, tail); } else { assert s[0] == BodyText(b)[0]; }
  }

  /** Blanks before a value do not matter. */
  lemma ValueSkips(s: string, t: string, depth: nat)
    requires SkipWs(s) == SkipWs(t)
    ensures ParseValue(s, depth) == ParseValue(t, depth)
  {
  }

  ghost predicate ItemsFit(items: seq<Node>, depth: nat) {
    forall i :: 0 <= i < |items| ==> Fits(items[i].body, depth)
  }

  ghost predicate MembersFit(ms: seq<Member>, depth: nat) {
    forall i :: 0 <= i < |ms| ==> Fits(ms[i].value.body, depth)
  }

  ghost predicate ItemsOk(items: seq<Node>) {
    forall i :: 0 <= i < |items| ==> NodeOk(items[i])
  }

  ghost predicate MembersOk(ms: seq<Member>) {
    forall i :: 0 <= i < |ms| ==> MemberOk(ms[i])
  }

  /** A text of the grammar reads as its meaning exactly when it is within the limits. */
  lemma {:induction false} BodyReads(b: Body, depth: nat, tail: string)
    requires BodyOk(b) && After(tail)
    ensures var r := ParseValue(BodyText(b) + tail, depth);
            if Fault(b, depth).None? then r == Ok(Means(b), tail) else r.Err? && r.error == Fault(b, depth).value
    decreases b, 3
  {
    BodyHead(b, tail);
    SkipStop(BodyText(b) + tail);
    match b
    case Word(v) => WordReads(v, depth, tail);
    case Num(n) => NumberReads(n, tail);
    case Quoted(ps) => QuotedReads(ps, tail);
    case List(gap, items) => ListReads(gap, items, depth, tail);
    case Record(gap, ms) => RecordReads(gap, ms, depth, tail);
  }

  lemma NodeShape(n: Node, tail: string)
    ensures NodeText(n) + tail == n.pre + (BodyText(n.body) + (n.post + tail))
  {
  }

  lemma {:induction false} NodeReads(n: Node, depth: nat, tail: string)
    requires NodeOk(n) && After(tail)
    ensures var r := ParseValue(NodeText(n) + tail, depth);
            var f := Fault(n.body, depth);
            if f.None? then r == Ok(Means(n.body), n.post + tail) else r.Err? && r.error == f.value
    decreases n, 4
  {
    var t := BodyText(n.body) + (n.post + tail);
    NodeShape(n, tail);
    SkipBlank(n.pre, t);
    ValueSkips(n.pre + t, t, depth);
    BlankAfter(n.post, tail);
    BodyReads(n.body, depth, n.post + tail);
  }

  lemma Enclosed(open: string, t: string, close: string, tail: string)
    requires |open| == 1
    ensures (open + (t + close) + tail)[1..] == t + (close + tail)
  {
  }

  lemma ListShape(gap: string, items: seq<Node>, tail: string)
    ensures var s := BodyText(List(gap, items)) + tail;
            s != [] && s[1..] == (if items == [] then gap else ItemsText(items)) + ([']'] + tail)
  {
    Enclosed(['['], if items == [] then gap else ItemsText(items), [']'], tail);
  }

  lemma RecordShape(gap: string, ms: seq<Member>, tail: string)
    ensures var s := BodyText(Record(gap, ms)) + tail;
            s != [] && s[1..] == (if ms == [] then gap else MembersText(ms)) + (['}'] + tail)
  {
    Enclosed(['{'], if ms == [] then gap else MembersText(ms), ['}'], tail);
  }

  /** The list between brackets, once the blanks behind the first are skipped. */
  lemma ArrayIs(s: string, t: string, depth: nat, r: Parsed<seq<Value>>, tail: string)
    requires s != [] && SkipWs(s[1..]) == t && ItemsOrNone(t, depth + 1) == r && (r.Ok? ==> r.rest == [']'] + tail)
    ensures var a := ParseArray(s, depth);
            if depth >= JSON_MAX_DEPTH then a.Err? && a.error == DepthExceeded
            else if r.Ok? then a == Ok(Arr(r.value), tail) else a.Err? && a.error == r.error
  {
    assert ([']'] + tail)[1..] == tail;
  }

  lemma ObjectIs(s: string, t: string, depth: nat, r: Parsed<seq<Pair>>, tail: string)
    requires s != [] && SkipWs(s[1..]) == t && PairsOrNone(t, depth + 1) == r && (r.Ok? ==> r.rest == ['}'] + tail)
    ensures var o := ParseObject(s, depth);
            if depth >= JSON_MAX_DEPTH then o.Err? && o.error == DepthExceeded
            else if r.Ok? then o == Ok(Obj(r.value), tail) else o.Err? && o.error == r.error
  {
    assert (['}'] + tail)[1..] == tail;
  }

  lemma {:induction false} ListReads(gap: string, items: seq<Node>, depth: nat, tail: string)
    requires Blank(gap) && ItemsOk(items)
    ensures var r := ParseArray(BodyText(List(gap, items)) + tail, depth);
            var f := Fault(List(gap, items), depth);
            if f.None? then r == Ok(Arr(ItemsMean(items)), tail) else r.Err? && r.error == f.value
    decreases items, 3
  {
    var s := BodyText(List(gap, items)) + tail;
    ListShape(gap, items, tail);
    InsideList(gap, items, depth + 1, tail);
    ArrayIs(s, SkipWs(s[1..]), depth, ItemsOrNone(SkipWs(s[1..]), depth + 1), tail);
  }

  /** What is between the brackets. */
  lemma {:induction false} InsideList(gap: string, items: seq<Node>, depth: nat, tail: string)
    requires Blank(gap) && ItemsOk(items)
    ensures var t := SkipWs((if items == [] then gap else ItemsText(items)) + ([']'] + tail));
            var r, f := ItemsOrNone(t, depth), ItemsFault(items, depth, 0);
            if f.None? then r == Ok(ItemsMean(items), [']'] + tail) else r.Err? && r.error == f.value
    decreases items, 2
  {
    if items == [] {
      SkipTo(gap, ']', tail);
    } else {
      var t := SkipWs(ItemsText(items) + ([']'] + tail));
      FirstItem(items, [']'] + tail);
      SkipStop(t);
      ItemsRead(t, items, depth, [], tail);
      assert [] + ItemsMean(items) == ItemsMean(items);
    }
  }

  /** The first item shows once the blanks are skipped. */
  lemma FirstItem(items: seq<Node>, close: string)
    requires items != [] && NodeOk(items[0])
    ensures var t := SkipWs(ItemsText(items) + close); t != [] && t[0] != ']'
  {
    var n := items[0];
    var rest := if |items| == 1 then close else [','] + ItemsText(items[1..]) + close;
    assert ItemsText(items) + close == NodeText(n) + rest;
    NodeShape(n, rest);
    SkipBlank(n.pre, BodyText(n.body) + (n.post + rest));
    BodyHead(n.body, n.post + rest);
    SkipStop(BodyText(n.body) + (n.post + rest));
  }

  /** After an item and its blanks comes a comma or the closing bracket. */
  lemma SeparatorReads(b: string, c: char, t: string)
    requires Blank(b) && (c == ',' || c == ']' || c == '}')
    ensures Separator(b + ([c] + t)) == if c == ',' then Ok(true, SkipWs(t)) else Ok(false, [c] + t)
  {
    SkipTo(b, c, t);
  }

  lemma SkipAgain(s: string)
    ensures SkipWs(SkipWs(s)) == SkipWs(s)
  {
    SkipStop(SkipWs(s));
  }

  lemma ItemsTurn(s: string, depth: nat, acc: seq<Value>, v: Value, b: string, c: char, t: string)
    requires |acc| < JSON_CONTAINER_MAX && Blank(b) && (c == ',' || c == ']') && ParseValue(s, depth) == Ok(v, b + ([c] + t))
    ensures ParseItems(s, depth, acc) == if c == ',' then ParseItems(SkipWs(t), depth, acc + [v]) else Ok(acc + [v], [c] + t)
  {
    SeparatorReads(b, c, t);
  }

  lemma ItemsFail(s: string, depth: nat, acc: seq<Value>)
    requires |acc| >= JSON_CONTAINER_MAX || ParseValue(s, depth).Err?
    ensures var r := ParseItems(s, depth, acc);
            r.Err? && r.error == if |acc| >= JSON_CONTAINER_MAX then Overflow else ParseValue(s, depth).error
  {
  }

  /** The first item of several. */
  lemma {:induction false} FirstItemReads(s: string, items: seq<Node>, depth: nat, acc: seq<Value>, tail: string)
    requires items != [] && ItemsOk(items) && SkipWs(s) == SkipWs(ItemsText(items) + ([']'] + tail))
    ensures var r, f, v := ParseItems(s, depth, acc), Fault(items[0].body, depth), Means(items[0].body);
            if |acc| >= JSON_CONTAINER_MAX then r.Err? && r.error == Overflow
            else if f.Some? then r.Err? && r.error == f.value
            else if |items| == 1 then r == Ok(acc + [v], [']'] + tail)
            else r == ParseItems(SkipWs(ItemsText(items[1..]) + ([']'] + tail)), depth, acc + [v])
    decreases items, 0
  {
    var n, close, v := items[0], [']'] + tail, Means(items[0].body);
    var after := if |items| == 1 then close else [','] + (ItemsText(items[1..]) + close);
    assert NodeOk(n);
    FirstOfItems(items, close);
    ValueSkips(s, NodeText(n) + after, depth);
    NodeReads(n, depth, after);
    if |acc| >= JSON_CONTAINER_MAX || Fault(n.body, depth).Some? {
      ItemsFail(s, depth, acc);
    } else if |items| == 1 {
      ItemsTurn(s, depth, acc, v, n.post, ']', tail);
    } else {
      ItemsTurn(s, depth, acc, v, n.post, ',', ItemsText(items[1..]) + close);
    }
  }

  /** r is how items read that follow acc and come before a closing bracket. */
  ghost predicate ItemsGive(r: Parsed<seq<Value>>, items: seq<Node>, depth: nat, acc: seq<Value>, tail: string) {
    var f := ItemsFault(items, depth, |acc|);
    if f.None? then r == Ok(acc + ItemsMean(items), [']'] + tail) else r.Err? && r.error == f.value
  }

  lemma {:induction false} ItemsRead(s: string, items: seq<Node>, depth: nat, acc: seq<Value>, tail: string)
    requires items != [] && ItemsOk(items) && SkipWs(s) == SkipWs(ItemsText(items) + ([']'] + tail))
    ensures ItemsGive(ParseItems(s, depth, acc), items, depth, acc, tail)
    decreases items, 1
  {
    FirstItemReads(s, items, depth, acc, tail);
    if |items| == 1 || |acc| >= JSON_CONTAINER_MAX || Fault(items[0].body, depth).Some? {
      OneItem(ParseItems(s, depth, acc), items, depth, acc, tail);
    } else {
      var v := Means(items[0].body);
      var next := SkipWs(ItemsText(items[1..]) + ([']'] + tail));
      SkipAgain(ItemsText(items[1..]) + ([']'] + tail));
      ItemsRead(next, items[1..], depth, acc + [v], tail);
      MoreItems(ParseItems(next, depth, acc + [v]), items, depth, acc, tail);
    }
  }

  lemma OneItem(r: Parsed<seq<Value>>, items: seq<Node>, depth: nat, acc: seq<Value>, tail: string)
    requires items != [] && (|items| == 1 || |acc| >= JSON_CONTAINER_MAX || Fault(items[0].body, depth).Some?)
    requires var f := Fault(items[0].body, depth);
             if |acc| >= JSON_CONTAINER_MAX then r.Err? && r.error == Overflow
             else if f.Some? then r.Err? && r.error == f.value
             else r == Ok(acc + [Means(items[0].body)], [']'] + tail)
    ensures ItemsGive(r, items, depth, acc, tail)
  {
    assert |items| == 1 ==> items[1..] == [];
    assert |items| == 1 ==> ItemsMean(items) == [Means(items[0].body)];
  }

  lemma MoreItems(r: Parsed<seq<Value>>, items: seq<Node>, depth: nat, acc: seq<Value>, tail: string)
    requires items != [] && |acc| < JSON_CONTAINER_MAX && Fault(items[0].body, depth).None?
    requires ItemsGive(r, items[1..], depth, acc + [Means(items[0].body)], tail)
    ensures ItemsGive(r, items, depth, acc, tail)
  {
    SnocCons(acc, Means(items[0].body), ItemsMean(items[1..]));
  }

  lemma FirstOfItems(items: seq<Node>, close: string)
    requires items != []
    ensures ItemsText(items) + close ==
            NodeText(items[0]) + (if |items| == 1 then close else [','] + (ItemsText(items[1..]) + close))
  {
    if |items| > 1 { Regroup(NodeText(items[0]), ItemsText(items[1..]), close); }
  }

  lemma Regroup(a: string, b: string, c: string)
    ensures a + ([','] + b) + c == a + ([','] + (b + c))
  {
  }

  lemma SnocCons<T>(a: seq<T>, x: T, b: seq<T>)
    ensures a + [x] + b == a + ([x] + b)
  {
  }

  lemma MemberShape(m: Member, tail: string)
    ensures MemberText(m) + tail == m.pre + (QuotedText(m.key) + (m.mid + ([':'] + (NodeText(m.value) + tail))))
  {
    Assoc(m.mid, [':'] + NodeText(m.value), tail);
    Assoc([':'], NodeText(m.value), tail);
    Assoc(QuotedText(m.key), m.mid + ([':'] + NodeText(m.value)), tail);
    Assoc(m.pre, QuotedText(m.key) + (m.mid + ([':'] + NodeText(m.value))), tail);
  }

  /** A key, its colon and the blanks around them. */
  lemma KeyReads(s: string, ps: seq<Piece>, mid: string, t: string)
    requires PiecesOk(ps) && Blank(mid) && SkipWs(s) == QuotedText(ps) + (mid + ([':'] + t))
    ensures ParseKey(s) == Ok(PiecesMean(ps), SkipWs(t))
  {
    QuotedReads(ps, mid + ([':'] + t));
    SkipTo(mid, ':', t);
  }

  lemma MemberSkips(s: string, m: Member, tail: string)
    requires MemberOk(m) && SkipWs(s) == SkipWs(MemberText(m) + tail)
    ensures SkipWs(s) == QuotedText(m.key) + (m.mid + ([':'] + (NodeText(m.value) + tail)))
  {
    var t := QuotedText(m.key) + (m.mid + ([':'] + (NodeText(m.value) + tail)));
    MemberShape(m, tail);
    SkipBlank(m.pre, t);
    assert t[0] == '"';
    SkipStop(t);
  }

  lemma {:induction false} MemberReads(s: string, m: Member, depth: nat, tail: string)
    requires MemberOk(m) && After(tail) && SkipWs(s) == SkipWs(MemberText(m) + tail)
    ensures var r := ParsePair(s, depth);
            var f := Fault(m.value.body, depth);
            if f.None? then r == Ok(Pair(PiecesMean(m.key), Means(m.value.body)), m.value.post + tail)
            else r.Err? && r.error == f.value
    decreases m, 5
  {
    var t := NodeText(m.value) + tail;
    MemberSkips(s, m, tail);
    KeyReads(s, m.key, m.mid, t);
    SkipAgain(t);
    ValueSkips(SkipWs(t), t, depth);
    NodeReads(m.value, depth, tail);
  }

  lemma {:induction false} RecordReads(gap: string, ms: seq<Member>, depth: nat, tail: string)
    requires Blank(gap) && MembersOk(ms)
    ensures var r := ParseObject(BodyText(Record(gap, ms)) + tail, depth);
            var f := Fault(Record(gap, ms), depth);
            if f.None? then r == Ok(Obj(MembersMean(ms)), tail) else r.Err? && r.error == f.value
    decreases ms, 3
  {
    var s := BodyText(Record(gap, ms)) + tail;
    RecordShape(gap, ms, tail);
    InsideRecord(gap, ms, depth + 1, tail);
    ObjectIs(s, SkipWs(s[1..]), depth, PairsOrNone(SkipWs(s[1..]), depth + 1), tail);
  }

  lemma {:induction false} InsideRecord(gap: string, ms: seq<Member>, depth: nat, tail: string)
    requires Blank(gap) && MembersOk(ms)
    ensures var t := SkipWs((if ms == [] then gap else MembersText(ms)) + (['}'] + tail));
            var r, f := PairsOrNone(t, depth), MembersFault(ms, depth, 0);
            if f.None? then r == Ok(MembersMean(ms), ['}'] + tail) else r.Err? && r.error == f.value
    decreases ms, 2
  {
    if ms == [] {
      SkipTo(gap, '}', tail);
    } else {
      var t := SkipWs(MembersText(ms) + (['}'] + tail));
      FirstMember(ms, ['}'] + tail);
      SkipStop(t);
      MembersRead(t, ms, depth, [], tail);
      assert [] + MembersMean(ms) == MembersMean(ms);
    }
  }

  lemma FirstMember(ms: seq<Member>, close: string)
    requires ms != [] && MemberOk(ms[0])
    ensures var t := SkipWs(MembersText(ms) + close); t != [] && t[0] == '"'
  {
    var rest := if |ms| == 1 then close else [','] + MembersText(ms[1..]) + close;
    assert MembersText(ms) + close == MemberText(ms[0]) + rest;
    MemberSkips(MembersText(ms) + close, ms[0], rest);
  }

  lemma PairsTurn(s: string, depth: nat, acc: seq<Pair>, v: Pair, b: string, c: char, t: string)
    requires |acc| < JSON_CONTAINER_MAX && Blank(b) && (c == ',' || c == '}') && ParsePair(s, depth) == Ok(v, b + ([c] + t))
    ensures ParsePairs(s, depth, acc) == if c == ',' then ParsePairs(SkipWs(t), depth, acc + [v]) else Ok(acc + [v], [c] + t)
  {
    SeparatorReads(b, c, t);
  }

  lemma PairsFail(s: string, depth: nat, acc: seq<Pair>)
    requires |acc| >= JSON_CONTAINER_MAX || ParsePair(s, depth).Err?
    ensures var r := ParsePairs(s, depth, acc);
            r.Err? && r.error == if |acc| >= JSON_CONTAINER_MAX then Overflow else ParsePair(s, depth).error
  {
  }

  /** The first member of several. */
  lemma {:induction false} FirstMemberReads(s: string, ms: seq<Member>, depth: nat, acc: seq<Pair>, tail: string)
    requires ms != [] && MembersOk(ms) && SkipWs(s) == SkipWs(MembersText(ms) + (['}'] + tail))
    ensures var r, f := ParsePairs(s, depth, acc), Fault(ms[0].value.body, depth);
            var v := Pair(PiecesMean(ms[0].key), Means(ms[0].value.body));
            if |acc| >= JSON_CONTAINER_MAX then r.Err? && r.error == Overflow
            else if f.Some? then r.Err? && r.error == f.value
            else if |ms| == 1 then r == Ok(acc + [v], ['}'] + tail)
            else r == ParsePairs(SkipWs(MembersText(ms[1..]) + (['}'] + tail)), depth, acc + [v])
    decreases ms, 0
  {
    var m, close, v := ms[0], ['}'] + tail, Pair(PiecesMean(ms[0].key), Means(ms[0].value.body));
    assert MemberOk(m) && NodeOk(m.value);
    FirstOfMembers(ms, close);
    if |ms| == 1 {
      MemberReads(s, m, depth, close);
    } else {
      MemberReads(s, m, depth, [','] + (MembersText(ms[1..]) + close));
    }
    if |acc| >= JSON_CONTAINER_MAX || Fault(m.value.body, depth).Some? {
      PairsFail(s, depth, acc);
    } else if |ms| == 1 {
      PairsTurn(s, depth, acc, v, m.value.post, '}', tail);
    } else {
      PairsTurn(s, depth, acc, v, m.value.post, ',', MembersText(ms[1..]) + close);
    }
  }

  /** r is how members read that follow acc and come before a closing brace. */
  ghost predicate MembersGive(r: Parsed<seq<Pair>>, ms: seq<Member>, depth: nat, acc: seq<Pair>, tail: string) {
    var f := MembersFault(ms, depth, |acc|);
    if f.None? then r == Ok(acc + MembersMean(ms), ['}'] + tail) else r.Err? && r.error == f.value
  }

  lemma {:induction false} MembersRead(s: string, ms: seq<Member>, depth: nat, acc: seq<Pair>, tail: string)
    requires ms != [] && MembersOk(ms) && SkipWs(s) == SkipWs(MembersText(ms) + (['}'] + tail))
    ensures MembersGive(ParsePairs(s, depth, acc), ms, depth, acc, tail)
    decreases ms, 1
  {
    FirstMemberReads(s, ms, depth, acc, tail);
    if |ms| == 1 || |acc| >= JSON_CONTAINER_MAX || Fault(ms[0].value.body, depth).Some? {
      OneMember(ParsePairs(s, depth, acc), ms, depth, acc, tail);
    } else {
      var v := Pair(PiecesMean(ms[0].key), Means(ms[0].value.body));
      var next := SkipWs(MembersText(ms[1..]) + (['}'] + tail));
      SkipAgain(MembersText(ms[1..]) + (['}'] + tail));
      MembersRead(next, ms[1..], depth, acc + [v], tail);
      MoreMembers(ParsePairs(next, depth, acc + [v]), ms, depth, acc, tail);
    }
  }

  lemma OneMember(r: Parsed<seq<Pair>>, ms: seq<Member>, depth: nat, acc: seq<Pair>, tail: string)
    requires ms != [] && (|ms| == 1 || |acc| >= JSON_CONTAINER_MAX || Fault(ms[0].value.body, depth).Some?)
    requires var f := Fault(ms[0].value.body, depth);
             if |acc| >= JSON_CONTAINER_MAX then r.Err? && r.error == Overflow
             else if f.Some? then r.Err? && r.error == f.value
             else r == Ok(acc + [Pair(PiecesMean(ms[0].key), Means(ms[0].value.body))], ['}'] + tail)
    ensures MembersGive(r, ms, depth, acc, tail)
  {
    assert |ms| == 1 ==> ms[1..] == [];
    assert |ms| == 1 ==> MembersMean(ms) == [Pair(PiecesMean(ms[0].key), Means(ms[0].value.body))];
  }

  lemma MoreMembers(r: Parsed<seq<Pair>>, ms: seq<Member>, depth: nat, acc: seq<Pair>, tail: string)
    requires ms != [] && |acc| < JSON_CONTAINER_MAX && Fault(ms[0].value.body, depth).None?
    requires MembersGive(r, ms[1..], depth, acc + [Pair(PiecesMean(ms[0].key), Means(ms[0].value.body))], tail)
    ensures MembersGive(r, ms, depth, acc, tail)
  {
    SnocCons(acc, Pair(PiecesMean(ms[0].key), Means(ms[0].value.body)), MembersMean(ms[1..]));
  }

  lemma FirstOfMembers(ms: seq<Member>, close: string)
    requires ms != []
    ensures MembersText(ms) + close ==
            MemberText(ms[0]) + (if |ms| == 1 then close else [','] + (MembersText(ms[1..]) + close))
  {
    if |ms| > 1 { Regroup(MemberText(ms[0]), MembersText(ms[1..]), close); }
  }

  /** A text runs into no limit exactly when it is within all of them. */
  lemma {:induction false} FaultFits(b: Body, depth: nat)
    ensures Fault(b, depth).None? <==> Fits(b, depth)
    decreases b, 1
  {
    match b
    case List(_, items) => ItemsFaultFits(items, depth + 1, 0);
    case Record(_, ms) => MembersFaultFits(ms, depth + 1, 0);
    case _ =>
  }

  lemma {:induction false} ItemsFaultFits(items: seq<Node>, depth: nat, count: nat)
    requires count <= JSON_CONTAINER_MAX
    ensures ItemsFault(items, depth, count).None? <==> count + |items| <= JSON_CONTAINER_MAX && ItemsFit(items, depth)
    decreases items, 0
  {
    if items != [] && count < JSON_CONTAINER_MAX {
      FaultFits(items[0].body, depth);
      ItemsFaultFits(items[1..], depth, count + 1);
      assert ItemsFit(items, depth) <==> Fits(items[0].body, depth) && ItemsFit(items[1..], depth);
    }
  }

  lemma {:induction false} MembersFaultFits(ms: seq<Member>, depth: nat, count: nat)
    requires count <= JSON_CONTAINER_MAX
    ensures MembersFault(ms, depth, count).None? <==> count + |ms| <= JSON_CONTAINER_MAX && MembersFit(ms, depth)
    decreases ms, 0
  {
    if ms != [] && count < JSON_CONTAINER_MAX {
      FaultFits(ms[0].value.body, depth);
      MembersFaultFits(ms[1..], depth, count + 1);
      assert MembersFit(ms, depth) <==> Fits(ms[0].value.body, depth) && MembersFit(ms[1..], depth);
    }
  }

  /** `json_parse` on a whole text: its meaning, or the first limit it runs into. */
  lemma TextReads(n: Node)
    requires NodeOk(n)
    ensures Fault(n.body, 0).None? <==> Fits(n.body, 0)
    ensures var r, f := Parse(NodeText(n)), Fault(n.body, 0);
            if f.None? then r == Ok(Means(n.body), []) else r.Err? && r.error == f.value
  {
    FaultFits(n.body, 0);
    NodeReads(n, 0, []);
    assert NodeText(n) + [] == NodeText(n) && n.post + [] == n.post;
    SkipBlank(n.post, []);
  }
}
