/** The reader accepts only texts of the grammar, and with `JsonReads` exactly those within
    its limits. */
module JsonSound {
  import opened JsonSpec
  import opened JsonGrammar
  import opened JsonReads
  import opened Options

  lemma {:induction false} BlankPrefix(s: string) returns (b: string)
    ensures Blank(b) && s == b + SkipWs(s)
  {
    if s != [] && BlankChar(s[0]) {
      var t := BlankPrefix(s[1..]);
      b := [s[0]] + t;
      assert s == [s[0]] + s[1..];
    } else {
      SkipStop(s);
      b := [];
    }
  }

  // Strings

  function EscapeOf(c: char): (p: Piece)
    ensures PieceOk(p) && PieceText(p) == ['\\', c]
  {
    match c
    case '"' => Quote
    case '\\' => Backslash
    case '/' => Slash
    case 'n' => Newline
    case 'r' => Return
    case 't' => Tab
    case 'b' => Backspace
    case 'f' => FormFeed
    case _ => Other(c)
  }

  lemma PiecesCons(p: Piece, ps: seq<Piece>, end: string)
    ensures PiecesText([p] + ps) + end == PieceText(p) + (PiecesText(ps) + end)
    ensures PieceOk(p) && PiecesOk(ps) ==> PiecesOk([p] + ps)
  {
    assert ([p] + ps)[1..] == ps;
  }

  lemma {:induction false} ScanSound(s: string) returns (ps: seq<Piece>)
    requires Scan(s).Ok?
    ensures PiecesOk(ps) && s == PiecesText(ps) + (['"'] + Scan(s).rest)
  {
    var end := ['"'] + Scan(s).rest;
    if s[0] == '"' {
      ps := [];
      assert PiecesText(ps) + end == end;
    } else if s[0] == '\\' {
      var t := ScanSound(s[2..]);
      PiecesCons(EscapeOf(s[1]), t, end);
      ps := [EscapeOf(s[1])] + t;
      assert s == ['\\', s[1]] + s[2..];
    } else {
      var t := ScanSound(s[1..]);
      PiecesCons(Raw(s[0]), t, end);
      ps := [Raw(s[0])] + t;
      assert s == [s[0]] + s[1..];
    }
  }

  lemma StringSound(s: string) returns (ps: seq<Piece>)
    requires ParseString(s).Ok?
    ensures PiecesOk(ps) && s == QuotedText(ps) + ParseString(s).rest && ParseString(s).value == PiecesMean(ps)
  {
    ps := ScanSound(s[1..]);
    var rest := ParseString(s).rest;
    assert s == ['"'] + s[1..];
    assert s == QuotedText(ps) + rest;
    QuotedReads(ps, rest);
  }

  // Numbers

  lemma {:induction false} DigitPrefix(s: string) returns (ds: string, t: string)
    ensures s == ds + t && AllDigits(ds) && (t != [] ==> !IsDigit(t[0])) && SkipDigits(s) == t
    ensures ds == [] <==> s == [] || !IsDigit(s[0])
  {
    if s != [] && IsDigit(s[0]) {
      var ds', t' := DigitPrefix(s[1..]);
      ds, t := [s[0]] + ds', t';
      assert s == [s[0]] + s[1..];
    } else {
      ds, t := [], s;
    }
  }

  lemma FirstTwo(s: string)
    requires |s| >= 2
    ensures s == [s[0]] + ([s[1]] + s[2..])
  {
  }

  lemma SignedExponent(s: string) returns (x: Exponent)
    requires |s| > 1 && (s[0] == 'e' || s[0] == 'E') && (s[1] == '+' || s[1] == '-')
    ensures ExponentOk(x) && s == ExponentText(Some(x)) + SkipExponent(s) && |SkipExponent(s)| < |s|
  {
    var ds, t := DigitPrefix(s[2..]);
    x := Exponent(s[0], [s[1]], ds);
    SignedText(s, ds, t);
  }

  lemma SignedText(s: string, ds: string, t: string)
    requires |s| > 1 && s[2..] == ds + t
    ensures s == ExponentText(Some(Exponent(s[0], [s[1]], ds))) + t
  {
    ExponentShape(Exponent(s[0], [s[1]], ds), t);
    FirstTwo(s);
  }

  lemma UnsignedExponent(s: string) returns (x: Exponent)
    requires s != [] && (s[0] == 'e' || s[0] == 'E') && !(|s| > 1 && (s[1] == '+' || s[1] == '-'))
    ensures ExponentOk(x) && s == ExponentText(Some(x)) + SkipExponent(s) && |SkipExponent(s)| < |s|
  {
    var ds, t := DigitPrefix(s[1..]);
    x := Exponent(s[0], "", ds);
    UnsignedText(s, ds, t);
  }

  lemma UnsignedText(s: string, ds: string, t: string)
    requires s != [] && s[1..] == ds + t
    ensures s == ExponentText(Some(Exponent(s[0], "", ds))) + t
  {
    ExponentShape(Exponent(s[0], "", ds), t);
    FirstOne(s);
  }

  lemma FirstOne(s: string)
    requires s != []
    ensures s == [s[0]] + s[1..]
  {
  }

  lemma ExponentSound(s: string) returns (e: Option<Exponent>)
    ensures ExpOk(e) && s == ExponentText(e) + SkipExponent(s)
    ensures e.Some? <==> |SkipExponent(s)| < |s|
  {
    if s == [] || !(s[0] == 'e' || s[0] == 'E') {
      e := None;
    } else if |s| > 1 && (s[1] == '+' || s[1] == '-') {
      var x := SignedExponent(s);
      e := Some(x);
    } else {
      var x := UnsignedExponent(s);
      e := Some(x);
    }
  }

  lemma FractionSound(s: string) returns (f: Option<string>, t: string)
    ensures (f.Some? ==> AllDigits(f.value)) && s == FractionText(f) + t
    ensures AfterWhole(s) == Ok((Millionths(f), |SkipExponent(t)| < |s|), SkipExponent(t))
  {
    if s != [] && s[0] == '.' {
      var ds, t' := DigitPrefix(s[1..]);
      f, t := Some(ds), t';
      FractionReads(ds, t);
      assert s == ['.'] + s[1..];
      Assoc(['.'], ds, t);
    } else {
      f, t := None, s;
      assert FractionText(f) + t == t;
    }
  }

  /** The reader's steps over a number, put together. */
  lemma NumberRun(s: string, whole: nat, t: string, frac: nat, isFloat: bool, rest: string)
    requires s != [] && |rest| <= |s|
    requires Digits(if s[0] == '-' then s[1..] else s, 0, if s[0] == '-' then I64_MAX + 1 else I64_MAX) == Ok(whole, t)
    requires AfterWhole(t) == Ok((frac, isFloat), rest)
    ensures ParseNumber(s) == NumberValue(s, s[0] == '-', whole, frac, isFloat, rest)
  {
  }

  lemma WholeSound(s: string, limit: nat) returns (ds: string, t: string)
    requires limit >= 9 && Digits(s, 0, limit).Ok?
    ensures s == ds + t && AllDigits(ds) && Decimal(ds) <= limit && Digits(s, 0, limit) == Ok(Decimal(ds), t)
    ensures ds == [] <==> s == [] || !IsDigit(s[0])
  {
    ds, t := DigitPrefix(s);
    WholeReads(ds, limit, t);
  }

  /** What follows the whole part is a fraction and an exponent, either perhaps missing. */
  lemma TailSound(t: string) returns (f: Option<string>, e: Option<Exponent>, rest: string)
    ensures (f.Some? ==> AllDigits(f.value)) && ExpOk(e) && t == FractionText(f) + (ExponentText(e) + rest)
    ensures AfterWhole(t) == Ok((Millionths(f), f.Some? || e.Some?), rest)
  {
    var u;
    f, u := FractionSound(t);
    e := ExponentSound(u);
    rest := SkipExponent(u);
    assert |t| == |FractionText(f)| + |u|;
  }

  lemma NumberSound(s: string) returns (n: Number)
    requires s != [] && (s[0] == '-' || IsDigit(s[0])) && ParseNumber(s).Ok?
    ensures NumberOk(n) && NumberFits(n) && s == NumberText(n) + ParseNumber(s).rest && ParseNumber(s).value == NumberMeans(n)
  {
    var neg := s[0] == '-';
    var s1 := if neg then s[1..] else s;
    var ds, t := WholeSound(s1, if neg then I64_MAX + 1 else I64_MAX);
    var f, e, rest := TailSound(t);
    n := Number(neg, ds, f, e);
    NumberParts(s, s1, n, rest);
    NumberRun(s, Decimal(ds), t, Millionths(f), f.Some? || e.Some?, rest);
    assert |s| > |rest| + (if neg then 1 else 0);
    NumberConsumed(n, s1, rest);
    NumberFinish(n, s, rest);
  }

  lemma NumberConsumed(n: Number, s1: string, rest: string)
    requires s1 == n.whole + (FractionText(n.frac) + (ExponentText(n.exp) + rest)) && |s1| > |rest|
    ensures n.whole != [] || n.frac.Some? || n.exp.Some?
  {
  }

  lemma NumberParts(s: string, s1: string, n: Number, rest: string)
    requires s != [] && (n.neg <==> s[0] == '-') && s1 == (if n.neg then s[1..] else s)
    requires s1 == n.whole + (FractionText(n.frac) + (ExponentText(n.exp) + rest))
    ensures s == NumberText(n) + rest
  {
    var t := FractionText(n.frac) + ExponentText(n.exp);
    Assoc(FractionText(n.frac), ExponentText(n.exp), rest);
    Assoc(n.whole, t, rest);
    Assoc(if n.neg then ['-'] else [], n.whole + t, rest);
    Signed(s, n.neg, s1);
  }

  lemma Signed(s: string, neg: bool, s1: string)
    requires s != [] && (neg <==> s[0] == '-') && s1 == (if neg then s[1..] else s)
    ensures s == (if neg then ['-'] else []) + s1
  {
  }

  // Values

  /** Blanks put before the first item. */
  lemma PadItems(b: string, items: seq<Node>, depth: nat) returns (padded: seq<Node>)
    requires Blank(b) && items != [] && ItemsOk(items) && ItemsFit(items, depth)
    ensures |padded| == |items| && ItemsOk(padded) && ItemsFit(padded, depth)
    ensures ItemsText(padded) == b + ItemsText(items) && ItemsMean(padded) == ItemsMean(items)
  {
    var n := items[0];
    var n' := n.(pre := b + n.pre);
    padded := [n'] + items[1..];
    assert padded[1..] == items[1..];
    assert NodeOk(n) && Fits(n.body, depth);
    Assoc(b, n.pre, BodyText(n.body) + n.post);
    if |items| > 1 { Assoc(b, NodeText(n), [','] + ItemsText(items[1..])); }
  }

  lemma PadMembers(b: string, ms: seq<Member>, depth: nat) returns (padded: seq<Member>)
    requires Blank(b) && ms != [] && MembersOk(ms) && MembersFit(ms, depth)
    ensures |padded| == |ms| && MembersOk(padded) && MembersFit(padded, depth)
    ensures MembersText(padded) == b + MembersText(ms) && MembersMean(padded) == MembersMean(ms)
  {
    var m := ms[0];
    var m' := m.(pre := b + m.pre);
    padded := [m'] + ms[1..];
    assert padded[1..] == ms[1..];
    assert MemberOk(m) && Fits(m.value.body, depth);
    Assoc(b, m.pre, QuotedText(m.key) + (m.mid + ([':'] + NodeText(m.value))));
    if |ms| > 1 { Assoc(b, MemberText(m), [','] + MembersText(ms[1..])); }
  }

  lemma WordSound(t: string, v: Value, rest: string)
    requires v.Null? || v.Bool?
    requires BodyText(Word(v)) <= t && rest == t[|BodyText(Word(v))|..]
    ensures t == BodyText(Word(v)) + rest
  {
  }

  /** Whatever is read as a value is a text of the grammar, with that meaning. */
  lemma {:induction false} ValueSound(s: string, depth: nat) returns (pre: string, b: Body)
    requires ParseValue(s, depth).Ok?
    ensures Blank(pre) && BodyOk(b) && Fits(b, depth) && ParseValue(s, depth).value == Means(b)
    ensures s == pre + (BodyText(b) + ParseValue(s, depth).rest)
    decreases |s|, 3
  {
    pre := BlankPrefix(s);
    b := BodySound(SkipWs(s), depth);
    SkipAgain(s);
    ValueSkips(s, SkipWs(s), depth);
  }

  lemma {:induction false} BodySound(t: string, depth: nat) returns (b: Body)
    requires SkipWs(t) == t && ParseValue(t, depth).Ok?
    ensures BodyOk(b) && Fits(b, depth) && ParseValue(t, depth).value == Means(b)
    ensures t == BodyText(b) + ParseValue(t, depth).rest
    decreases |t|, 2
  {
    if t[0] == '"' {
      var ps := StringSound(t);
      b := Quoted(ps);
    } else if t[0] == '{' {
      b := RecordSound(t, depth);
    } else if t[0] == '[' {
      b := ListSound(t, depth);
    } else if t[0] == '-' || IsDigit(t[0]) {
      var n := NumberSound(t);
      b := Num(n);
    } else {
      var r := ParseValue(t, depth);
      b := Word(r.value);
      WordSound(t, r.value, r.rest);
    }
  }

  lemma ArrayOpens(s: string, depth: nat)
    requires s != [] && ParseArray(s, depth).Ok?
    ensures depth < JSON_MAX_DEPTH
    ensures var r, a := ItemsOrNone(SkipWs(s[1..]), depth + 1), ParseArray(s, depth);
            r.Ok? && r.rest == [']'] + a.rest && a.value == Arr(r.value)
  {
  }

  /** The text of a list, given its inside and what follows. */
  lemma ListText(s: string, gap: string, items: seq<Node>, rest: string)
    requires s != [] && s[0] == '[' && s[1..] == (if items == [] then gap else ItemsText(items)) + ([']'] + rest)
    ensures s == BodyText(List(gap, items)) + rest
  {
    Closing(['['], if items == [] then gap else ItemsText(items), [']'], rest);
  }

  lemma {:induction false} ListSound(s: string, depth: nat) returns (b: Body)
    requires s != [] && s[0] == '[' && ParseArray(s, depth).Ok?
    ensures BodyOk(b) && Fits(b, depth) && ParseArray(s, depth).value == Means(b)
    ensures s == BodyText(b) + ParseArray(s, depth).rest
    decreases |s|, 1
  {
    ArrayOpens(s, depth);
    var t, rest := SkipWs(s[1..]), ParseArray(s, depth).rest;
    var gap := BlankPrefix(s[1..]);
    if t == [] || t[0] == ']' {
      b := List(gap, []);
      ListText(s, gap, [], rest);
    } else {
      var items := ItemsSound(t, depth + 1, []);
      var padded := PadItems(gap, items, depth + 1);
      b := List([], padded);
      Assoc(gap, ItemsText(items), [']'] + rest);
      ListText(s, [], padded, rest);
      assert [] + ItemsMean(items) == ItemsMean(items);
    }
  }

  lemma Closing(open: string, t: string, close: string, rest: string)
    ensures open + (t + (close + rest)) == open + (t + close) + rest
  {
    Assoc(t, close, rest);
    Assoc(open, t + close, rest);
  }

  /** One turn of the element loop. */
  lemma ItemsStep(s: string, depth: nat, acc: seq<Value>)
    requires ParseItems(s, depth, acc).Ok?
    ensures var e := ParseValue(s, depth);
            && |acc| < JSON_CONTAINER_MAX && e.Ok? && SkipWs(e.rest) != []
            && var t := SkipWs(e.rest);
               ParseItems(s, depth, acc) == if t[0] == ',' then ParseItems(SkipWs(t[1..]), depth, acc + [e.value])
                                            else Ok(acc + [e.value], t)
  {
  }

  lemma ItemsCons(n: Node, items: seq<Node>, depth: nat)
    requires NodeOk(n) && Fits(n.body, depth) && items != [] && ItemsOk(items) && ItemsFit(items, depth)
    ensures var all := [n] + items;
            && ItemsOk(all) && ItemsFit(all, depth) && ItemsMean(all) == [Means(n.body)] + ItemsMean(items)
            && ItemsText(all) == NodeText(n) + ([','] + ItemsText(items))
  {
    assert ([n] + items)[1..] == items;
  }

  lemma NodeJoin(n: Node, t: string)
    ensures n.pre + (BodyText(n.body) + (n.post + t)) == NodeText(n) + t
  {
    NodeShape(n, t);
  }

  lemma {:induction false} ItemsSound(s: string, depth: nat, acc: seq<Value>) returns (items: seq<Node>)
    requires ParseItems(s, depth, acc).Ok?
    ensures items != [] && ItemsOk(items) && ItemsFit(items, depth) && |acc| + |items| <= JSON_CONTAINER_MAX
    ensures ParseItems(s, depth, acc).value == acc + ItemsMean(items)
    ensures s == ItemsText(items) + ParseItems(s, depth, acc).rest
    decreases |s|, 4
  {
    ItemsStep(s, depth, acc);
    var e := ParseValue(s, depth);
    var pre, b := ValueSound(s, depth);
    var post := BlankPrefix(e.rest);
    var t, n := SkipWs(e.rest), Node(pre, b, post);
    NodeJoin(n, t);
    if t[0] != ',' {
      items := [n];
      assert ItemsMean(items) == [e.value];
    } else {
      var gap := BlankPrefix(t[1..]);
      var more := ItemsSound(SkipWs(t[1..]), depth, acc + [e.value]);
      var padded := PadItems(gap, more, depth);
      items := [n] + padded;
      ItemsCons(n, padded, depth);
      CommaJoin(s, NodeText(n), t, gap, SkipWs(t[1..]), ItemsText(more), ParseItems(s, depth, acc).rest);
      SnocCons(acc, e.value, ItemsMean(more));
    }
  }

  /** A first element, a comma, blanks and the others. */
  lemma CommaJoin(s: string, a: string, t: string, gap: string, next: string, b: string, rest: string)
    requires s == a + t && t != [] && t[0] == ',' && t[1..] == gap + next && next == b + rest
    ensures s == a + ([','] + (gap + b)) + rest
  {
    assert t == [','] + t[1..];
    Assoc(gap, b, rest);
    Assoc([','], gap + b, rest);
    Assoc(a, [','] + (gap + b), rest);
  }

  lemma ObjectOpens(s: string, depth: nat)
    requires s != [] && ParseObject(s, depth).Ok?
    ensures depth < JSON_MAX_DEPTH
    ensures var r, o := PairsOrNone(SkipWs(s[1..]), depth + 1), ParseObject(s, depth);
            r.Ok? && r.rest == ['}'] + o.rest && o.value == Obj(r.value)
  {
  }

  lemma RecordText(s: string, gap: string, ms: seq<Member>, rest: string)
    requires s != [] && s[0] == '{' && s[1..] == (if ms == [] then gap else MembersText(ms)) + (['}'] + rest)
    ensures s == BodyText(Record(gap, ms)) + rest
  {
    Closing(['{'], if ms == [] then gap else MembersText(ms), ['}'], rest);
  }

  lemma {:induction false} RecordSound(s: string, depth: nat) returns (b: Body)
    requires s != [] && s[0] == '{' && ParseObject(s, depth).Ok?
    ensures BodyOk(b) && Fits(b, depth) && ParseObject(s, depth).value == Means(b)
    ensures s == BodyText(b) + ParseObject(s, depth).rest
    decreases |s|, 1
  {
    ObjectOpens(s, depth);
    var t, rest := SkipWs(s[1..]), ParseObject(s, depth).rest;
    var gap := BlankPrefix(s[1..]);
    if t == [] || t[0] == '}' {
      b := Record(gap, []);
      RecordText(s, gap, [], rest);
    } else {
      var ms := MembersSound(t, depth + 1, []);
      var padded := PadMembers(gap, ms, depth + 1);
      b := Record([], padded);
      Assoc(gap, MembersText(ms), ['}'] + rest);
      RecordText(s, [], padded, rest);
      assert [] + MembersMean(ms) == MembersMean(ms);
    }
  }

  lemma KeyText(s: string, pre: string, t: string, q: string, r: string, mid: string, c: string, gap: string, rest: string)
    requires s == pre + t && t == q + r && r == mid + c && c != [] && c[0] == ':' && c[1..] == gap + rest
    ensures s == pre + (q + (mid + ([':'] + (gap + rest))))
  {
    FirstOne(c);
  }

  /** A key and its colon, read by the specification. */
  lemma KeyOpens(s: string)
    requires ParseKey(s).Ok?
    ensures var k := ParseString(SkipWs(s));
            && k.Ok? && k.value == ParseKey(s).value && SkipWs(k.rest) != [] && SkipWs(k.rest)[0] == ':'
            && ParseKey(s).rest == SkipWs(SkipWs(k.rest)[1..])
  {
  }

  lemma KeySound(s: string) returns (pre: string, ps: seq<Piece>, mid: string, gap: string)
    requires ParseKey(s).Ok?
    ensures Blank(pre) && Blank(mid) && Blank(gap) && PiecesOk(ps) && ParseKey(s).value == PiecesMean(ps)
    ensures s == pre + (QuotedText(ps) + (mid + ([':'] + (gap + ParseKey(s).rest))))
  {
    KeyOpens(s);
    pre := BlankPrefix(s);
    ps := StringSound(SkipWs(s));
    var r := ParseString(SkipWs(s)).rest;
    mid := BlankPrefix(r);
    var c := SkipWs(r);
    gap := BlankPrefix(c[1..]);
    KeyText(s, pre, SkipWs(s), QuotedText(ps), r, mid, c, gap, ParseKey(s).rest);
  }

  /** A member, with the blanks behind its value still to come. */
  lemma {:induction false} MemberSound(s: string, depth: nat) returns (m: Member)
    requires ParsePair(s, depth).Ok?
    ensures MemberOk(m) && Fits(m.value.body, depth) && m.value.post == ""
    ensures ParsePair(s, depth).value == Pair(PiecesMean(m.key), Means(m.value.body))
    ensures s == MemberText(m) + ParsePair(s, depth).rest
    decreases |s|, 4
  {
    var pre, ps, mid, gap := KeySound(s);
    var t := ParseKey(s).rest;
    var vpre, b := ValueSound(t, depth);
    var rest := ParseValue(t, depth).rest;
    m := Member(pre, ps, mid, Node(gap + vpre, b, ""));
    Assoc(gap, vpre, BodyText(b) + rest);
    assert "" + rest == rest;
    NodeJoin(m.value, rest);
    MemberShape(m, rest);
  }

  lemma EndBlanks(m: Member, post: string)
    requires m.value.post == ""
    ensures MemberText(m.(value := m.value.(post := post))) == MemberText(m) + post
  {
    var n := m.value;
    assert BodyText(n.body) + "" == BodyText(n.body);
    Assoc(n.pre, BodyText(n.body), post);
    MemberShape(m, post);
  }

  lemma MembersStep(s: string, depth: nat, acc: seq<Pair>)
    requires ParsePairs(s, depth, acc).Ok?
    ensures var e := ParsePair(s, depth);
            && |acc| < JSON_CONTAINER_MAX && e.Ok? && SkipWs(e.rest) != []
            && var t := SkipWs(e.rest);
               ParsePairs(s, depth, acc) == if t[0] == ',' then ParsePairs(SkipWs(t[1..]), depth, acc + [e.value])
                                            else Ok(acc + [e.value], t)
  {
  }

  lemma MembersCons(m: Member, ms: seq<Member>, depth: nat)
    requires MemberOk(m) && Fits(m.value.body, depth) && ms != [] && MembersOk(ms) && MembersFit(ms, depth)
    ensures var all := [m] + ms;
            && MembersOk(all) && MembersFit(all, depth)
            && MembersMean(all) == [Pair(PiecesMean(m.key), Means(m.value.body))] + MembersMean(ms)
            && MembersText(all) == MemberText(m) + ([','] + MembersText(ms))
  {
    assert ([m] + ms)[1..] == ms;
  }

  lemma {:induction false} MembersSound(s: string, depth: nat, acc: seq<Pair>) returns (ms: seq<Member>)
    requires ParsePairs(s, depth, acc).Ok?
    ensures ms != [] && MembersOk(ms) && MembersFit(ms, depth) && |acc| + |ms| <= JSON_CONTAINER_MAX
    ensures ParsePairs(s, depth, acc).value == acc + MembersMean(ms)
    ensures s == MembersText(ms) + ParsePairs(s, depth, acc).rest
    decreases |s|, 5
  {
    MembersStep(s, depth, acc);
    var e := ParsePair(s, depth);
    var m0 := MemberSound(s, depth);
    var post := BlankPrefix(e.rest);
    var t, m := SkipWs(e.rest), m0.(value := m0.value.(post := post));
    EndBlanks(m0, post);
    Assoc(MemberText(m0), post, t);
    if t[0] != ',' {
      ms := [m];
      assert MembersMean(ms) == [e.value];
    } else {
      var gap := BlankPrefix(t[1..]);
      var more := MembersSound(SkipWs(t[1..]), depth, acc + [e.value]);
      var padded := PadMembers(gap, more, depth);
      ms := [m] + padded;
      MembersCons(m, padded, depth);
      CommaJoin(s, MemberText(m), t, gap, SkipWs(t[1..]), MembersText(more), ParsePairs(s, depth, acc).rest);
      SnocCons(acc, e.value, MembersMean(more));
    }
  }

  /** The text is one of the grammar within the limits, and means v. */
  ghost predicate Reads(s: string, v: Value) {
    exists n :: NodeOk(n) && Fits(n.body, 0) && NodeText(n) == s && Means(n.body) == v
  }

  /** `json_parse` accepts exactly the texts of the grammar within its limits, and gives
      each its meaning. */
  lemma ParseIsGrammar(s: string, v: Value)
    ensures Parse(s) == Ok(v, []) <==> Reads(s, v)
    ensures Parse(s).Ok? ==> Parse(s).rest == []
  {
    if Reads(s, v) {
      var n :| NodeOk(n) && Fits(n.body, 0) && NodeText(n) == s && Means(n.body) == v;
      TextReads(n);
    }
    if Parse(s) == Ok(v, []) {
      var rest := ParseValue(s, 0).rest;
      var pre, b := ValueSound(s, 0);
      var post := BlankPrefix(rest);
      var n := Node(pre, b, post);
      assert post + [] == post;
      assert NodeText(n) == s;
    }
  }

  /** The same tokens without any blank between them. */
  ghost function Dense(b: Body): Body
    decreases b, 1
  {
    match b
    case List(_, items) => List("", DenseItems(items))
    case Record(_, ms) => Record("", DenseMembers(ms))
    case _ => b
  }

  ghost function DenseItems(items: seq<Node>): (r: seq<Node>)
    ensures |r| == |items| && forall i :: 0 <= i < |r| ==> r[i] == Node("", Dense(items[i].body), "")
    decreases items, 0
  {
    if items == [] then [] else [Node("", Dense(items[0].body), "")] + DenseItems(items[1..])
  }

  ghost function DenseMembers(ms: seq<Member>): (r: seq<Member>)
    ensures |r| == |ms|
    ensures forall i :: 0 <= i < |r| ==> r[i] == Member("", ms[i].key, "", Node("", Dense(ms[i].value.body), ""))
    decreases ms, 0
  {
    if ms == [] then []
    else [Member("", ms[0].key, "", Node("", Dense(ms[0].value.body), ""))] + DenseMembers(ms[1..])
  }

  lemma {:induction false} DenseSame(b: Body, depth: nat)
    requires BodyOk(b)
    ensures BodyOk(Dense(b)) && Means(Dense(b)) == Means(b) && (Fits(Dense(b), depth) <==> Fits(b, depth))
    decreases b, 1
  {
    match b
    case List(_, items) => DenseItemsSame(items, depth + 1);
    case Record(_, ms) => DenseMembersSame(ms, depth + 1);
    case _ =>
  }

  lemma {:induction false} DenseItemsSame(items: seq<Node>, depth: nat)
    requires ItemsOk(items)
    ensures ItemsOk(DenseItems(items)) && ItemsMean(DenseItems(items)) == ItemsMean(items)
    ensures ItemsFit(DenseItems(items), depth) <==> ItemsFit(items, depth)
    decreases items, 0
  {
    if items != [] {
      assert NodeOk(items[0]);
      DenseSame(items[0].body, depth);
      DenseItemsSame(items[1..], depth);
      var d := DenseItems(items);
      assert d[1..] == DenseItems(items[1..]);
      assert ItemsFit(items, depth) <==> Fits(items[0].body, depth) && ItemsFit(items[1..], depth);
      assert ItemsFit(d, depth) <==> Fits(d[0].body, depth) && ItemsFit(d[1..], depth);
    }
  }

  lemma {:induction false} DenseMembersSame(ms: seq<Member>, depth: nat)
    requires MembersOk(ms)
    ensures MembersOk(DenseMembers(ms)) && MembersMean(DenseMembers(ms)) == MembersMean(ms)
    ensures MembersFit(DenseMembers(ms), depth) <==> MembersFit(ms, depth)
    decreases ms, 0
  {
    if ms != [] {
      assert MemberOk(ms[0]) && NodeOk(ms[0].value);
      DenseSame(ms[0].value.body, depth);
      DenseMembersSame(ms[1..], depth);
      var d := DenseMembers(ms);
      assert d[1..] == DenseMembers(ms[1..]);
      assert MembersFit(ms, depth) <==> Fits(ms[0].value.body, depth) && MembersFit(ms[1..], depth);
      assert MembersFit(d, depth) <==> Fits(d[0].value.body, depth) && MembersFit(d[1..], depth);
    }
  }

  /** Blanks before and after any token make no difference to what a text reads as. */
  lemma BlanksDoNotMatter(n: Node)
    requires NodeOk(n)
    ensures var r, dense := Parse(NodeText(n)), Parse(BodyText(Dense(n.body)));
            if dense.Ok? then r == dense else r.Err?
  {
    DenseSame(n.body, 0);
    TextReads(n);
    TextReads(Node("", Dense(n.body), ""));
    assert NodeText(Node("", Dense(n.body), "")) == BodyText(Dense(n.body));
  }

  /** When a value was read but the text is refused, a complete text within the limits is
      followed by something that is not a blank. */
  lemma TrailingMeans(s: string) returns (n: Node)
    requires ParseValue(s, 0).Ok? && Parse(s).Err?
    ensures Parse(s).error == TrailingInput
    ensures NodeOk(n) && Fits(n.body, 0) && s == NodeText(n) + Parse(s).rest && Parse(s).rest != []
    ensures !BlankChar(Parse(s).rest[0])
  {
    var rest := ParseValue(s, 0).rest;
    var pre, b := ValueSound(s, 0);
    var post := BlankPrefix(rest);
    n := Node(pre, b, post);
    NodeJoin(n, Parse(s).rest);
  }
}
