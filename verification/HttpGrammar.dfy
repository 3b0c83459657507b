/** Request heads as concrete syntax, as generously as the parser reads them: the parser accepts exactly the heads of
    at most `max` headers, stops exactly at their end, and returns their fields. */
module HttpGrammar {
  import opened Bytes
  import opened HttpHead
  import opened HttpScans

  datatype Eol = CrLf | BareLf

  /** A header line, or a line that continues the one before and begins with a blank. */
  datatype HeaderText =
    | Named(name: seq<Byte>, before: seq<Byte>, value: seq<Byte>, after: seq<Byte>, eol: Eol)
    | Folded(value: seq<Byte>, after: seq<Byte>, eol: Eol)

  datatype LineText = LineText(method_: seq<Byte>, spaces1: nat, target: seq<Byte>, spaces2: nat, minor: Byte, eol: Eol)

  datatype Lead = NoLead | Lead(eol: Eol)

  datatype RequestText = RequestText(lead: Lead, line: LineText, headers: seq<HeaderText>, end: Eol)

  // ---------- well-formedness ----------

  ghost predicate TokenText(x: seq<Byte>) {
    x != [] && forall i :: 0 <= i < |x| ==> IsToken(x[i])
  }

  ghost predicate TargetText(x: seq<Byte>) {
    x != [] && forall i :: 0 <= i < |x| ==> !IsCtl(x[i]) && x[i] != SP
  }

  ghost predicate BlankText(x: seq<Byte>) {
    forall i :: 0 <= i < |x| ==> IsBlank(x[i])
  }

  /** A value runs up to its last octet that is not blank. */
  ghost predicate ValueText(x: seq<Byte>) {
    (forall i :: 0 <= i < |x| ==> !EndsValue(x[i])) && (x != [] ==> !IsBlank(x[|x| - 1]))
  }

  ghost predicate WellFormedHeader(h: HeaderText, first: bool) {
    match h
    case Named(name, before, value, after, _) =>
      && TokenText(name) && BlankText(before) && ValueText(value) && BlankText(after)
      && (if value == [] then after == [] else !IsBlank(value[0]))
    case Folded(value, after, _) =>
      && !first && ValueText(value) && BlankText(after)
      && value + after != [] && IsBlank((value + after)[0])
  }

  /** The header lines from the `n`th on. */
  ghost predicate WellFormedHeaders(hs: seq<HeaderText>, n: nat) {
    hs == [] || (WellFormedHeader(hs[0], n == 0) && WellFormedHeaders(hs[1..], n + 1))
  }

  ghost predicate WellFormedLine(line: LineText) {
    match line
    case LineText(method_, spaces1, target, spaces2, minor, _) =>
      TokenText(method_) && spaces1 >= 1 && TargetText(target) && spaces2 >= 1 && IsDigit(minor)
  }

  ghost predicate WellFormed(t: RequestText) {
    match t
    case RequestText(_, line, headers, _) => WellFormedLine(line) && WellFormedHeaders(headers, 0)
  }

  /** The classes of characters in numbers. A token is written with the fifteen signs of section 3.2.6 of RFC 7230, digits
      and letters. */
  lemma Characters(c: Byte)
    ensures IsToken(c) <==>
            || c in {33, 35, 36, 37, 38, 39, 42, 43, 45, 46, 94, 95, 96, 124, 126}
            || c in {48, 49, 50, 51, 52, 53, 54, 55, 56, 57} || 65 <= c <= 90 || 97 <= c <= 122
    ensures IsDigit(c) <==> c in {48, 49, 50, 51, 52, 53, 54, 55, 56, 57}
    ensures IsDigit(c) ==> 48 + Digit(c) == c
    ensures IsCtl(c) <==> c <= 31 || c == 127
    ensures EndsValue(c) <==> c <= 8 || 10 <= c <= 31 || c == 127
    ensures IsBlank(c) <==> c in {9, 32}
    ensures EolText(CrLf) == [13, 10] && EolText(BareLf) == [10] && PrintHeader(Folded([], [], BareLf)) == [10]
    ensures Spaces(1) == [32] && PrintHeader(Named([97], [], [], [], BareLf)) == [97, 58, 10]
  {
    assert Spaces(1) == [SP] + Spaces(0);
  }

  // ---------- printing ----------

  function EolText(e: Eol): seq<Byte> {
    match e case CrLf => [CR, LF] case BareLf => [LF]
  }

  function Spaces(n: nat): (x: seq<Byte>)
    ensures |x| == n && forall i :: 0 <= i < n ==> x[i] == SP
  {
    if n == 0 then [] else [SP] + Spaces(n - 1)
  }

  const HTTP1: seq<Byte> := [72, 84, 84, 80, 47, 49, 46]

  function PrintValue(value: seq<Byte>, after: seq<Byte>, e: Eol): seq<Byte> {
    value + (after + EolText(e))
  }

  function PrintHeader(h: HeaderText): seq<Byte> {
    match h
    case Named(name, before, value, after, eol) => name + ([COLON] + (before + PrintValue(value, after, eol)))
    case Folded(value, after, eol) => PrintValue(value, after, eol)
  }

  /** The header lines and the blank line. */
  function PrintHeaders(hs: seq<HeaderText>, end: Eol): seq<Byte> {
    if hs == [] then EolText(end) else PrintHeader(hs[0]) + PrintHeaders(hs[1..], end)
  }

  function PrintVersion(minor: Byte, rest: seq<Byte>): seq<Byte> {
    HTTP1 + ([minor] + rest)
  }

  function PrintLine(t: LineText): seq<Byte> {
    t.method_ + (Spaces(t.spaces1) + (t.target + (Spaces(t.spaces2) + PrintVersion(t.minor, EolText(t.eol)))))
  }

  function PrintLead(lead: Lead): seq<Byte> {
    match lead case NoLead => [] case Lead(eol) => EolText(eol)
  }

  function Print(t: RequestText): seq<Byte> {
    PrintLead(t.lead) + (PrintLine(t.line) + PrintHeaders(t.headers, t.end))
  }

  // ---------- fields ----------

  /** `s` reads `x` at `p`. */
  ghost predicate At(s: seq<Byte>, p: nat, x: seq<Byte>) {
    p + |x| <= |s| && forall i {:trigger x[i]} :: 0 <= i < |x| ==> s[p + i] == x[i]
  }

  /** The slice reads `x`. */
  ghost predicate Holds(s: seq<Byte>, slice: Slice, x: seq<Byte>) {
    slice.Slice? && slice.len == |x| && At(s, slice.start, x)
  }

  /** The parsed header reads what the text says; a continuation line has a null name. */
  ghost predicate HeaderReads(s: seq<Byte>, h: Header, t: HeaderText) {
    match t
    case Named(name, _, value, _, _) => Holds(s, h.name, name) && Holds(s, h.value, value)
    case Folded(value, _, _) => h.name.Null? && Holds(s, h.value, value)
  }

  ghost predicate HeadersRead(s: seq<Byte>, hs: seq<Header>, ts: seq<HeaderText>) {
    |hs| == |ts| && forall i :: 0 <= i < |hs| ==> HeaderReads(s, hs[i], ts[i])
  }

  ghost predicate LineReads(s: seq<Byte>, r: Request, t: LineText) {
    Holds(s, r.method_, t.method_) && Holds(s, r.path, t.target) && IsDigit(t.minor) && r.minorVersion == Digit(t.minor)
  }

  lemma AtSplit(s: seq<Byte>, p: nat, x: seq<Byte>, y: seq<Byte>)
    requires At(s, p, x + y)
    ensures At(s, p, x) && At(s, p + |x|, y)
  {
    var z := x + y;
    assert forall i :: 0 <= i < |x| ==> x[i] == z[i];
    assert forall i :: 0 <= i < |y| ==> y[i] == z[|x| + i];
  }

  lemma AtJoin(s: seq<Byte>, p: nat, x: seq<Byte>, y: seq<Byte>)
    requires At(s, p, x) && At(s, p + |x|, y)
    ensures At(s, p, x + y)
  {
  }

  lemma AtIndex(s: seq<Byte>, p: nat, x: seq<Byte>)
    requires At(s, p, x)
    ensures forall k :: p <= k < p + |x| ==> s[k] == x[k - p]
  {
  }

  /** Reading is equality with a slice. */
  lemma AtIsSlice(s: seq<Byte>, p: nat, x: seq<Byte>)
    ensures At(s, p, x) <==> p + |x| <= |s| && s[p..p + |x|] == x
  {
    if p + |x| <= |s| && s[p..p + |x|] == x {
      assert forall i :: 0 <= i < |x| ==> x[i] == s[p..p + |x|][i];
    }
  }

  // ---------- reading a printed head ----------

  lemma EolAt(s: seq<Byte>, p: nat, e: Eol)
    requires At(s, p, EolText(e))
    ensures p < |s| && LineBreak(s, p) == Ok((), p + |EolText(e)|) && EndsValue(s[p]) && s[p] in {CR, LF}
  {
    AtIndex(s, p, EolText(e));
  }

  lemma TokenAt(s: seq<Byte>, p: nat, x: seq<Byte>, stop: Byte)
    requires At(s, p, x) && (x == [] || TokenText(x)) && p + |x| < |s| && s[p + |x|] == stop && !IsToken(stop)
    ensures Token(s, p, stop) == Ok(Slice(p, |x|), p + |x|)
  {
    AtIndex(s, p, x);
    TokenSkip(s, p, p + |x|, stop);
  }

  lemma TargetAt(s: seq<Byte>, p: nat, x: seq<Byte>)
    requires At(s, p, x) && TargetText(x) && p + |x| < |s| && s[p + |x|] == SP
    ensures Target(s, p) == Ok(Slice(p, |x|), p + |x|)
  {
    AtIndex(s, p, x);
    TargetSkip(s, p, p + |x|);
  }

  lemma SpacesAt(s: seq<Byte>, p: nat, n: nat)
    requires n >= 1 && At(s, p, Spaces(n)) && p + n < |s| && s[p + n] != SP
    ensures s[p] == SP && SkipSpaces(s, p + 1) == Ok((), p + n)
  {
    AtIndex(s, p, Spaces(n));
    SpacesSkip(s, p + 1, p + n);
  }

  lemma ToEolAt(s: seq<Byte>, p: nat, line: seq<Byte>, e: Eol)
    requires At(s, p, line) && At(s, p + |line|, EolText(e)) && forall i :: 0 <= i < |line| ==> !EndsValue(line[i])
    ensures ToEol(s, p) == Ok(Slice(p, |line|), p + |line| + |EolText(e)|)
  {
    AtIndex(s, p, line);
    ValueSkip(s, p, p + |line|);
    EolAt(s, p + |line|, e);
  }

  lemma TrimAt(s: seq<Byte>, p: nat, value: seq<Byte>, after: seq<Byte>)
    requires At(s, p, value) && At(s, p + |value|, after) && ValueText(value) && BlankText(after)
    ensures TrimEnd(s, p, p + |value| + |after|) == p + |value|
  {
    AtIndex(s, p, value);
    AtIndex(s, p + |value|, after);
    TrimSkip(s, p, p + |value|, p + |value| + |after|);
  }

  lemma ValueParts(s: seq<Byte>, p: nat, value: seq<Byte>, after: seq<Byte>, e: Eol)
    requires At(s, p, PrintValue(value, after, e))
    ensures At(s, p, value) && At(s, p + |value|, after) && At(s, p, value + after)
    ensures At(s, p + |value| + |after|, EolText(e))
  {
    AtSplit(s, p, value, after + EolText(e));
    AtSplit(s, p + |value|, after, EolText(e));
    AtJoin(s, p, value, after);
  }

  /** A value, blanks, and a line break. */
  lemma ValueAt(s: seq<Byte>, p: nat, value: seq<Byte>, after: seq<Byte>, e: Eol, name: Slice)
    requires At(s, p, PrintValue(value, after, e)) && ValueText(value) && BlankText(after)
    ensures Value(s, p, name) == Ok(Header(name, Slice(p, |value|)), p + |PrintValue(value, after, e)|)
    ensures At(s, p, value)
  {
    ValueParts(s, p, value, after, e);
    ToEolAt(s, p, value + after, e);
    TrimAt(s, p, value, after);
  }

  /** A name and its colon, and the blanks before the value at `v`. */
  lemma NameAt(s: seq<Byte>, p: nat, name: seq<Byte>, before: seq<Byte>, v: nat)
    requires At(s, p, name) && At(s, p + |name|, [COLON]) && At(s, p + |name| + 1, before)
    requires TokenText(name) && BlankText(before) && v == p + |name| + 1 + |before| < |s| && !IsBlank(s[v])
    ensures Token(s, p, COLON) == Ok(Slice(p, |name|), p + |name|) && SkipBlanks(s, p + |name| + 1) == Ok((), v)
  {
    AtIndex(s, p + |name|, [COLON]);
    TokenAt(s, p, name, COLON);
    AtIndex(s, p + |name| + 1, before);
    BlanksSkip(s, p + |name| + 1, v);
  }

  lemma HeaderLineOf(s: seq<Byte>, p: nat, first: bool, name: Slice, q: nat, v: nat)
    requires p < |s| && !IsBlank(s[p]) && name.Slice? && name.len > 0
    requires Token(s, p, COLON) == Ok(name, q) && SkipBlanks(s, q + 1) == Ok((), v)
    ensures HeaderLine(s, p, first) == Value(s, v, name)
  {
  }

  /** What follows the blanks after the colon does not begin with a blank. */
  lemma TailAt(s: seq<Byte>, v: nat, t: HeaderText, first: bool)
    requires t.Named? && WellFormedHeader(t, first) && At(s, v, PrintValue(t.value, t.after, t.eol))
    ensures v < |s| && !IsBlank(s[v])
  {
    ValueParts(s, v, t.value, t.after, t.eol);
    if t.value == [] {
      EolAt(s, v, t.eol);
    } else {
      AtIndex(s, v, t.value);
    }
  }

  /** The answer of `HeaderLine` on well-formed text. */
  ghost predicate HeaderAnswer(s: seq<Byte>, p: nat, t: HeaderText, first: bool) {
    match HeaderLine(s, p, first)
    case Ok(h, next) => next == p + |PrintHeader(t)| && HeaderReads(s, h, t)
    case _ => false
  }

  lemma NamedAt(s: seq<Byte>, p: nat, t: HeaderText, first: bool)
    requires t.Named? && WellFormedHeader(t, first) && At(s, p, PrintHeader(t))
    ensures HeaderAnswer(s, p, t, first)
  {
    var v := p + |t.name| + 1 + |t.before|;
    NamedParts(s, p, t);
    TailAt(s, v, t, first);
    NameAt(s, p, t.name, t.before, v);
    assert !IsBlank(s[p]) by { AtIndex(s, p, t.name); }
    HeaderLineOf(s, p, first, Slice(p, |t.name|), p + |t.name|, v);
    ValueAt(s, v, t.value, t.after, t.eol, Slice(p, |t.name|));
  }

  lemma NamedParts(s: seq<Byte>, p: nat, t: HeaderText)
    requires t.Named? && At(s, p, PrintHeader(t))
    ensures At(s, p, t.name) && At(s, p + |t.name|, [COLON]) && At(s, p + |t.name| + 1, t.before)
    ensures At(s, p + |t.name| + 1 + |t.before|, PrintValue(t.value, t.after, t.eol))
  {
    var tail := PrintValue(t.value, t.after, t.eol);
    AtSplit(s, p, t.name, [COLON] + (t.before + tail));
    AtSplit(s, p + |t.name|, [COLON], t.before + tail);
    AtSplit(s, p + |t.name| + 1, t.before, tail);
  }

  /** A continuation line begins with a blank, in its value or after it. */
  lemma FoldedFirst(s: seq<Byte>, p: nat, t: HeaderText, first: bool)
    requires t.Folded? && WellFormedHeader(t, first) && At(s, p, PrintHeader(t))
    ensures p < |s| && IsBlank(s[p])
  {
    ValueParts(s, p, t.value, t.after, t.eol);
    AtIndex(s, p, t.value + t.after);
  }

  lemma FoldedAt(s: seq<Byte>, p: nat, t: HeaderText)
    requires t.Folded? && WellFormedHeader(t, false) && At(s, p, PrintHeader(t))
    ensures HeaderAnswer(s, p, t, false)
  {
    FoldedFirst(s, p, t, false);
    ValueAt(s, p, t.value, t.after, t.eol, Null);
  }

  lemma HeaderAt(s: seq<Byte>, p: nat, t: HeaderText, first: bool)
    requires WellFormedHeader(t, first) && At(s, p, PrintHeader(t))
    ensures HeaderAnswer(s, p, t, first)
    ensures p < |s| && s[p] != CR && s[p] != LF
  {
    if t.Named? {
      NamedAt(s, p, t, first);
      NamedParts(s, p, t);
      AtIndex(s, p, t.name);
    } else {
      FoldedAt(s, p, t);
      FoldedFirst(s, p, t, first);
    }
  }

  /** The answer of `Headers` on well-formed text. */
  ghost predicate HeadersAnswer(s: seq<Byte>, p: nat, ts: seq<HeaderText>, end: Eol, n: nat, max: nat) {
    match Headers(s, p, n, max)
    case Ok(hs, next) => next == p + |PrintHeaders(ts, end)| && HeadersRead(s, hs, ts)
    case _ => false
  }

  lemma HeadersCons(s: seq<Byte>, p: nat, n: nat, max: nat, h: Header, q: nat)
    requires p < |s| && s[p] != CR && s[p] != LF && HeaderLine(s, p, n == 0) == Ok(h, q)
    ensures Headers(s, p, n, max) == if n == max then Bad else Prepend([h], Headers(s, q, n + 1, max))
  {
  }

  lemma HeadersReadCons(s: seq<Byte>, h: Header, more: seq<Header>, ts: seq<HeaderText>)
    requires ts != [] && HeaderReads(s, h, ts[0]) && HeadersRead(s, more, ts[1..])
    ensures HeadersRead(s, [h] + more, ts)
  {
    forall i | 1 <= i < |ts|
      ensures HeaderReads(s, more[i - 1], ts[i])
    {
      assert ts[i] == ts[1..][i - 1];
    }
  }

  lemma OneMoreHeader(s: seq<Byte>, p: nat, ts: seq<HeaderText>, end: Eol, n: nat, max: nat)
    requires n < max && ts != [] && p < |s| && s[p] != CR && s[p] != LF
    requires HeaderAnswer(s, p, ts[0], n == 0)
    requires HeadersAnswer(s, p + |PrintHeader(ts[0])|, ts[1..], end, n + 1, max)
    ensures HeadersAnswer(s, p, ts, end, n, max)
  {
    var h, q := HeaderLine(s, p, n == 0).value, p + |PrintHeader(ts[0])|;
    HeadersCons(s, p, n, max, h, q);
    HeadersReadCons(s, h, Headers(s, q, n + 1, max).value, ts);
  }

  lemma TailAtHeader(s: seq<Byte>, p: nat, ts: seq<HeaderText>, end: Eol, n: nat)
    requires ts != [] && WellFormedHeaders(ts, n) && At(s, p, PrintHeaders(ts, end))
    ensures WellFormedHeaders(ts[1..], n + 1) && At(s, p + |PrintHeader(ts[0])|, PrintHeaders(ts[1..], end))
  {
    AtSplit(s, p, PrintHeader(ts[0]), PrintHeaders(ts[1..], end));
  }

  lemma NoHeaderAt(s: seq<Byte>, p: nat, end: Eol, n: nat, max: nat)
    requires At(s, p, PrintHeaders([], end))
    ensures HeadersAnswer(s, p, [], end, n, max)
  {
    EolAt(s, p, end);
  }

  lemma {:induction false} HeadersAt(s: seq<Byte>, p: nat, ts: seq<HeaderText>, end: Eol, n: nat, max: nat)
    requires n + |ts| <= max && WellFormedHeaders(ts, n) && At(s, p, PrintHeaders(ts, end))
    ensures HeadersAnswer(s, p, ts, end, n, max)
    decreases |ts|
  {
    if ts == [] {
      NoHeaderAt(s, p, end, n, max);
    } else {
      var q := p + |PrintHeader(ts[0])|;
      TailAtHeader(s, p, ts, end, n);
      assert HeadersAnswer(s, q, ts[1..], end, n + 1, max) by { HeadersAt(s, q, ts[1..], end, n + 1, max); }
      MoreHeadersAt(s, p, ts, end, n, max);
    }
  }

  lemma MoreHeadersAt(s: seq<Byte>, p: nat, ts: seq<HeaderText>, end: Eol, n: nat, max: nat)
    requires n < max && ts != [] && WellFormedHeaders(ts, n) && At(s, p, PrintHeaders(ts, end))
    requires HeadersAnswer(s, p + |PrintHeader(ts[0])|, ts[1..], end, n + 1, max)
    ensures HeadersAnswer(s, p, ts, end, n, max)
  {
    AtSplit(s, p, PrintHeader(ts[0]), PrintHeaders(ts[1..], end));
    HeaderAt(s, p, ts[0], n == 0);
    OneMoreHeader(s, p, ts, end, n, max);
  }

  /** One header more than there is room for is an error. */
  lemma {:induction false} TooManyAt(s: seq<Byte>, p: nat, ts: seq<HeaderText>, end: Eol, n: nat, max: nat)
    requires n <= max < n + |ts| && WellFormedHeaders(ts, n) && At(s, p, PrintHeaders(ts, end))
    ensures Headers(s, p, n, max).Bad?
    decreases |ts|
  {
    AtSplit(s, p, PrintHeader(ts[0]), PrintHeaders(ts[1..], end));
    var q := p + |PrintHeader(ts[0])|;
    if n < max {
      TooManyAt(s, q, ts[1..], end, n + 1, max);
    }
    HeaderAt(s, p, ts[0], n == 0);
    HeadersCons(s, p, n, max, HeaderLine(s, p, n == 0).value, q);
  }

  lemma VersionAt(s: seq<Byte>, p: nat, minor: Byte, rest: seq<Byte>)
    requires At(s, p, PrintVersion(minor, rest)) && IsDigit(minor) && rest != []
    ensures Version(s, p) == Ok(Digit(minor), p + 8) && s[p] != SP && At(s, p + 8, rest)
  {
    AtSplit(s, p, HTTP1, [minor] + rest);
    AtSplit(s, p + 7, [minor], rest);
    AtIndex(s, p, HTTP1);
    AtIndex(s, p + 7, [minor]);
  }

  lemma LineParts(s: seq<Byte>, p: nat, t: LineText)
    requires At(s, p, PrintLine(t))
    ensures var p1 := p + |t.method_|; var p2 := p1 + t.spaces1; var p3 := p2 + |t.target|; var p4 := p3 + t.spaces2;
            && At(s, p, t.method_) && At(s, p1, Spaces(t.spaces1)) && At(s, p2, t.target) && At(s, p3, Spaces(t.spaces2))
            && At(s, p4, PrintVersion(t.minor, EolText(t.eol)))
  {
    var x, y, v := Spaces(t.spaces1), Spaces(t.spaces2), PrintVersion(t.minor, EolText(t.eol));
    AtSplit(s, p, t.method_, x + (t.target + (y + v)));
    AtSplit(s, p + |t.method_|, x, t.target + (y + v));
    AtSplit(s, p + |t.method_| + |x|, t.target, y + v);
    AtSplit(s, p + |t.method_| + |x| + |t.target|, y, v);
  }

  lemma MethodAt(s: seq<Byte>, p: nat, t: LineText)
    requires WellFormedLine(t) && At(s, p, PrintLine(t))
    ensures var p1 := p + |t.method_|; var p2 := p1 + t.spaces1;
            && Token(s, p, SP) == Ok(Slice(p, |t.method_|), p1) && SkipSpaces(s, p1 + 1) == Ok((), p2)
            && At(s, p, t.method_) && s[p] != CR && s[p] != LF
  {
    LineParts(s, p, t);
    var p1 := p + |t.method_|;
    AtIndex(s, p, t.method_);
    AtIndex(s, p1 + t.spaces1, t.target);
    SpacesAt(s, p1, t.spaces1);
    TokenAt(s, p, t.method_, SP);
  }

  lemma RestOfLineAt(s: seq<Byte>, p: nat, t: LineText)
    requires WellFormedLine(t) && At(s, p, PrintLine(t))
    ensures var p2 := p + |t.method_| + t.spaces1; var method_ := Slice(p, |t.method_|);
            && AfterMethod(s, p2, method_) ==
               Ok(Request(method_, Slice(p2, |t.target|), Digit(t.minor), []), p + |PrintLine(t)|)
            && At(s, p2, t.target)
  {
    LineParts(s, p, t);
    var p2 := p + |t.method_| + t.spaces1;
    var p3 := p2 + |t.target|;
    var p4 := p3 + t.spaces2;
    VersionAt(s, p4, t.minor, EolText(t.eol));
    EolAt(s, p4 + 8, t.eol);
    SpacesAt(s, p3, t.spaces2);
    TargetAt(s, p2, t.target);
  }

  lemma RequestLineOf(s: seq<Byte>, p: nat, method_: Slice, p1: nat, p2: nat)
    requires method_.Slice? && Token(s, p, SP) == Ok(method_, p1) && SkipSpaces(s, p1 + 1) == Ok((), p2)
    ensures RequestLine(s, p) == AfterMethod(s, p2, method_)
  {
  }

  lemma LineAt(s: seq<Byte>, p: nat, t: LineText)
    requires WellFormedLine(t) && At(s, p, PrintLine(t))
    ensures var r := RequestLine(s, p); r.Ok? && r.next == p + |PrintLine(t)| && LineReads(s, r.value, t)
    ensures p < |s| && s[p] != CR && s[p] != LF
  {
    MethodAt(s, p, t);
    RestOfLineAt(s, p, t);
    var p1 := p + |t.method_|;
    RequestLineOf(s, p, Slice(p, |t.method_|), p1, p1 + t.spaces1);
  }

  lemma LeadAt(s: seq<Byte>, lead: Lead)
    requires At(s, 0, PrintLead(lead)) && |PrintLead(lead)| < |s|
    requires lead.NoLead? ==> s[0] != CR && s[0] != LF
    ensures LeadingBreak(s) == Ok((), |PrintLead(lead)|)
  {
    if lead.Lead? {
      EolAt(s, 0, lead.eol);
    }
  }

  /** The fields a parse returns are those of the text. */
  ghost predicate Reads(s: seq<Byte>, r: Request, t: RequestText) {
    LineReads(s, r, t.line) && HeadersRead(s, r.headers, t.headers)
  }

  ghost predicate RequestAnswer(s: seq<Byte>, t: RequestText, max: nat) {
    match ParseRequest(s, max)
    case Ok(r, next) => |t.headers| <= max && next == |Print(t)| && Reads(s, r, t)
    case Bad => |t.headers| > max
    case Short => false
  }

  /** Parsing printed text stops at its end and returns its fields; a header too many is an error. */
  lemma RequestAt(s: seq<Byte>, t: RequestText, max: nat)
    requires WellFormed(t) && At(s, 0, Print(t))
    ensures RequestAnswer(s, t, max)
  {
    var p := |PrintLead(t.lead)|;
    var q := p + |PrintLine(t.line)|;
    HeadParts(s, t);
    LineAt(s, p, t.line);
    LeadAt(s, t.lead);
    if |t.headers| <= max {
      HeadersAt(s, q, t.headers, t.end, 0, max);
    } else {
      TooManyAt(s, q, t.headers, t.end, 0, max);
    }
    ParseRequestOf(s, max, p, RequestLine(s, p).value, q);
  }

  lemma HeadParts(s: seq<Byte>, t: RequestText)
    requires At(s, 0, Print(t))
    ensures At(s, 0, PrintLead(t.lead)) && At(s, |PrintLead(t.lead)|, PrintLine(t.line))
    ensures At(s, |PrintLead(t.lead)| + |PrintLine(t.line)|, PrintHeaders(t.headers, t.end))
  {
    var lead, line, tail := PrintLead(t.lead), PrintLine(t.line), PrintHeaders(t.headers, t.end);
    AtSplit(s, 0, lead, line + tail);
    AtSplit(s, |lead|, line, tail);
  }

  lemma ParseRequestOf(s: seq<Byte>, max: nat, p: nat, line: Request, q: nat)
    requires LeadingBreak(s) == Ok((), p) && RequestLine(s, p) == Ok(line, q)
    ensures ParseRequest(s, max) == match Headers(s, q, 0, max)
                                    case Bad => Bad
                                    case Short => Short
                                    case Ok(headers, next) => Ok(line.(headers := headers), next)
  {
  }

  lemma RequestRoundTrip(t: RequestText, rest: seq<Byte>, max: nat)
    requires WellFormed(t)
    ensures RequestAnswer(Print(t) + rest, t, max)
  {
    assert (Print(t) + rest)[0..|Print(t)|] == Print(t);
    RequestAt(Print(t) + rest, t, max);
  }

  // ---------- what is accepted has been printed ----------

  lemma EolOf(s: seq<Byte>, p: nat) returns (e: Eol)
    requires LineBreak(s, p).Ok?
    ensures At(s, p, EolText(e)) && LineBreak(s, p).next == p + |EolText(e)|
  {
    e := if s[p] == CR then CrLf else BareLf;
    assert At(s, p, EolText(e));
  }

  lemma SpacesOf(s: seq<Byte>, p: nat, q: nat)
    requires p <= q <= |s| && forall k :: p <= k < q ==> s[k] == SP
    ensures At(s, p, Spaces(q - p))
  {
    assert s[p..q] == Spaces(q - p);
  }

  lemma ValueOf(s: seq<Byte>, p: nat, name: Slice) returns (value: seq<Byte>, after: seq<Byte>, e: Eol)
    requires Value(s, p, name).Ok?
    ensures ValueText(value) && BlankText(after) && At(s, p, PrintValue(value, after, e))
  {
    var q := FindCtl(s, p).next;
    e := EolOf(s, q);
    value, after := SplitValue(s, p, q);
    AtJoin(s, p + |value|, after, EolText(e));
    AtJoin(s, p, value, after + EolText(e));
  }

  lemma SplitValue(s: seq<Byte>, p: nat, q: nat) returns (value: seq<Byte>, after: seq<Byte>)
    requires FindCtl(s, p).Ok? && FindCtl(s, p).next == q
    ensures ValueText(value) && BlankText(after)
    ensures At(s, p, value) && At(s, p + |value|, after) && p + |value| + |after| == q
  {
    ValuePassed(s, p);
    TrimPassed(s, p, q);
    var m := TrimEnd(s, p, q);
    value, after := s[p..m], s[m..q];
  }

  lemma NamedOf(s: seq<Byte>, p: nat, first: bool) returns (t: HeaderText)
    requires HeaderLine(s, p, first).Ok? && (first || !IsBlank(s[p]))
    ensures WellFormedHeader(t, first) && At(s, p, PrintHeader(t))
  {
    TokenPassed(s, p, COLON);
    var q := TokenEnd(s, p, COLON).next;
    BlanksPassed(s, q + 1);
    var v := SkipBlanks(s, q + 1).next;
    var value, after, e := ValueOf(s, v, Slice(p, q - p));
    t := NamedFrom(s, p, q, v, value, after, e);
  }

  lemma NamedFrom(s: seq<Byte>, p: nat, q: nat, v: nat, value: seq<Byte>, after: seq<Byte>, e: Eol) returns (t: HeaderText)
    requires p < q < v < |s| && TokenText(s[p..q]) && s[q] == COLON && BlankText(s[q + 1..v]) && !IsBlank(s[v])
    requires ValueText(value) && BlankText(after) && At(s, v, PrintValue(value, after, e))
    ensures forall first :: WellFormedHeader(t, first)
    ensures At(s, p, PrintHeader(t))
  {
    t := Named(s[p..q], s[q + 1..v], value, after, e);
    NotBlankFirst(s, v, value, after, e);
    NamedJoin(s, p, t);
  }

  lemma NotBlankFirst(s: seq<Byte>, v: nat, value: seq<Byte>, after: seq<Byte>, e: Eol)
    requires v < |s| && !IsBlank(s[v]) && BlankText(after) && At(s, v, PrintValue(value, after, e))
    ensures if value == [] then after == [] else !IsBlank(value[0])
  {
    ValueParts(s, v, value, after, e);
    AtIndex(s, v, value);
    AtIndex(s, v + |value|, after);
  }

  lemma NamedJoin(s: seq<Byte>, p: nat, t: HeaderText)
    requires t.Named? && At(s, p, t.name) && At(s, p + |t.name|, [COLON]) && At(s, p + |t.name| + 1, t.before)
    requires At(s, p + |t.name| + 1 + |t.before|, PrintValue(t.value, t.after, t.eol))
    ensures At(s, p, PrintHeader(t))
  {
    var tail := PrintValue(t.value, t.after, t.eol);
    AtJoin(s, p + |t.name| + 1, t.before, tail);
    AtJoin(s, p + |t.name|, [COLON], t.before + tail);
    AtJoin(s, p, t.name, [COLON] + (t.before + tail));
  }

  lemma BlankFirst(s: seq<Byte>, p: nat, value: seq<Byte>, after: seq<Byte>, e: Eol)
    requires p < |s| && IsBlank(s[p]) && At(s, p, PrintValue(value, after, e))
    ensures value + after != [] && IsBlank((value + after)[0])
  {
    ValueParts(s, p, value, after, e);
    EolAt(s, p + |value| + |after|, e);
    AtIndex(s, p, value + after);
  }

  lemma FoldedOf(s: seq<Byte>, p: nat) returns (t: HeaderText)
    requires HeaderLine(s, p, false).Ok? && IsBlank(s[p])
    ensures WellFormedHeader(t, false) && At(s, p, PrintHeader(t))
  {
    var value, after, e := ValueOf(s, p, Null);
    t := Folded(value, after, e);
    BlankFirst(s, p, value, after, e);
  }

  lemma HeaderOf(s: seq<Byte>, p: nat, first: bool) returns (t: HeaderText)
    requires HeaderLine(s, p, first).Ok?
    ensures WellFormedHeader(t, first) && At(s, p, PrintHeader(t))
  {
    if first || !IsBlank(s[p]) {
      t := NamedOf(s, p, first);
    } else {
      t := FoldedOf(s, p);
    }
  }

  lemma {:induction false} HeadersOf(s: seq<Byte>, p: nat, n: nat, max: nat) returns (ts: seq<HeaderText>, end: Eol)
    requires n <= max && Headers(s, p, n, max).Ok?
    ensures n + |ts| <= max && WellFormedHeaders(ts, n) && At(s, p, PrintHeaders(ts, end))
    decreases |s| - p
  {
    if s[p] == CR || s[p] == LF {
      ts := [];
      end := EolOf(s, p);
    } else {
      var q := HeaderLine(s, p, n == 0).next;
      var more;
      more, end := HeadersOf(s, q, n + 1, max);
      ts := HeadersJoin(s, p, q, more, end, n);
    }
  }

  lemma HeadersJoin(s: seq<Byte>, p: nat, q: nat, more: seq<HeaderText>, end: Eol, n: nat) returns (ts: seq<HeaderText>)
    requires HeaderLine(s, p, n == 0).Ok? && HeaderLine(s, p, n == 0).next == q
    requires WellFormedHeaders(more, n + 1) && At(s, q, PrintHeaders(more, end))
    ensures |ts| == 1 + |more| && WellFormedHeaders(ts, n) && At(s, p, PrintHeaders(ts, end))
  {
    var h := HeaderOf(s, p, n == 0);
    HeaderAt(s, p, h, n == 0);
    AtJoin(s, p, PrintHeader(h), PrintHeaders(more, end));
    ts := [h] + more;
    assert ts[1..] == more;
  }

  lemma TokenOf(s: seq<Byte>, p: nat, q: nat, stop: Byte)
    requires p < q && Token(s, p, stop) == Ok(Slice(p, q - p), q)
    ensures TokenText(s[p..q])
  {
    TokenPassed(s, p, stop);
  }

  lemma TargetOf(s: seq<Byte>, p: nat, q: nat)
    requires p < q && Target(s, p) == Ok(Slice(p, q - p), q)
    ensures TargetText(s[p..q])
  {
    TargetPassed(s, p);
  }

  lemma GapOf(s: seq<Byte>, p: nat, q: nat)
    requires p < |s| && s[p] == SP && SkipSpaces(s, p + 1).Ok? && SkipSpaces(s, p + 1).next == q
    ensures p < q && At(s, p, Spaces(q - p))
  {
    SpacesPassed(s, p + 1);
    SpacesOf(s, p, q);
  }

  lemma VersionOf(s: seq<Byte>, p: nat, rest: seq<Byte>)
    requires Version(s, p).Ok? && At(s, p + 8, rest)
    ensures IsDigit(s[p + 7]) && At(s, p, PrintVersion(s[p + 7], rest)) && Version(s, p).value == Digit(s[p + 7])
  {
    AtJoin(s, p + 7, [s[p + 7]], rest);
    AtJoin(s, p, HTTP1, [s[p + 7]] + rest);
  }

  /** Where the parts of a request line end. */
  ghost predicate MethodEnds(s: seq<Byte>, p: nat, p1: nat, p2: nat) {
    && p < p1 && Token(s, p, SP) == Ok(Slice(p, p1 - p), p1)
    && SkipSpaces(s, p1 + 1).Ok? && SkipSpaces(s, p1 + 1).next == p2
  }

  ghost predicate TargetEnds(s: seq<Byte>, p2: nat, p3: nat, p4: nat) {
    && p2 < p3 && Target(s, p2) == Ok(Slice(p2, p3 - p2), p3)
    && SkipSpaces(s, p3 + 1).Ok? && SkipSpaces(s, p3 + 1).next == p4
    && Version(s, p4).Ok? && LineBreak(s, p4 + 8).Ok?
  }

  lemma MarkMethod(s: seq<Byte>, p: nat) returns (p1: nat, p2: nat)
    requires RequestLine(s, p).Ok?
    ensures MethodEnds(s, p, p1, p2) && AfterMethod(s, p2, Slice(p, p1 - p)) == RequestLine(s, p)
  {
    p1 := TokenEnd(s, p, SP).next;
    p2 := SkipSpaces(s, p1 + 1).next;
  }

  lemma MarkTarget(s: seq<Byte>, p2: nat, method_: Slice) returns (p3: nat, p4: nat)
    requires method_.Slice? && AfterMethod(s, p2, method_).Ok?
    ensures TargetEnds(s, p2, p3, p4) && AfterMethod(s, p2, method_).next == LineBreak(s, p4 + 8).next
  {
    p3 := TargetEnd(s, p2).next;
    p4 := SkipSpaces(s, p3 + 1).next;
  }

  lemma LineFrom(s: seq<Byte>, p: nat, p1: nat, p2: nat, p3: nat, p4: nat) returns (t: LineText)
    requires MethodEnds(s, p, p1, p2) && TargetEnds(s, p2, p3, p4)
    ensures WellFormedLine(t) && At(s, p, PrintLine(t)) && p + |PrintLine(t)| == LineBreak(s, p4 + 8).next
  {
    TokenOf(s, p, p1, SP);
    GapOf(s, p1, p2);
    TargetOf(s, p2, p3);
    GapOf(s, p3, p4);
    var e := EolOf(s, p4 + 8);
    VersionOf(s, p4, EolText(e));
    t := LineText(s[p..p1], p2 - p1, s[p2..p3], p4 - p3, s[p4 + 7], e);
    LineJoin(s, p, t);
  }

  lemma LineOf(s: seq<Byte>, p: nat) returns (t: LineText)
    requires RequestLine(s, p).Ok?
    ensures WellFormedLine(t) && At(s, p, PrintLine(t)) && p + |PrintLine(t)| == RequestLine(s, p).next
  {
    var p1, p2 := MarkMethod(s, p);
    var p3, p4 := MarkTarget(s, p2, Slice(p, p1 - p));
    t := LineFrom(s, p, p1, p2, p3, p4);
  }

  lemma LineJoin(s: seq<Byte>, p: nat, t: LineText)
    requires var p1 := p + |t.method_|; var p2 := p1 + t.spaces1; var p3 := p2 + |t.target|; var p4 := p3 + t.spaces2;
             && At(s, p, t.method_) && At(s, p1, Spaces(t.spaces1)) && At(s, p2, t.target) && At(s, p3, Spaces(t.spaces2))
             && At(s, p4, PrintVersion(t.minor, EolText(t.eol)))
    ensures At(s, p, PrintLine(t))
  {
    var x, y, v := Spaces(t.spaces1), Spaces(t.spaces2), PrintVersion(t.minor, EolText(t.eol));
    var p2 := p + |t.method_| + t.spaces1;
    AtJoin(s, p2 + |t.target|, y, v);
    AtJoin(s, p2, t.target, y + v);
    AtJoin(s, p + |t.method_|, x, t.target + (y + v));
    AtJoin(s, p, t.method_, x + (t.target + (y + v)));
  }

  lemma LeadOf(s: seq<Byte>) returns (lead: Lead)
    requires LeadingBreak(s).Ok?
    ensures At(s, 0, PrintLead(lead)) && LeadingBreak(s).next == |PrintLead(lead)|
  {
    if s[0] == CR || s[0] == LF {
      var e := EolOf(s, 0);
      lead := Lead(e);
    } else {
      lead := NoLead;
    }
  }

  lemma HeadOf(s: seq<Byte>, max: nat, p: nat, q: nat) returns (t: RequestText)
    requires LeadingBreak(s) == Ok((), p) && RequestLine(s, p).Ok? && RequestLine(s, p).next == q
    requires Headers(s, q, 0, max).Ok?
    ensures WellFormed(t) && |t.headers| <= max
    ensures At(s, 0, PrintLead(t.lead)) && At(s, |PrintLead(t.lead)|, PrintLine(t.line))
    ensures At(s, |PrintLead(t.lead)| + |PrintLine(t.line)|, PrintHeaders(t.headers, t.end))
  {
    var lead := LeadOf(s);
    var line := LineOf(s, p);
    var headers, end := HeadersOf(s, q, 0, max);
    t := RequestText(lead, line, headers, end);
  }

  /** Whatever the parser accepts is the printed form of some head. */
  lemma RequestOf(s: seq<Byte>, max: nat) returns (t: RequestText)
    requires ParseRequest(s, max).Ok?
    ensures WellFormed(t) && |t.headers| <= max && At(s, 0, Print(t))
  {
    var p := LeadingBreak(s).next;
    t := HeadOf(s, max, p, RequestLine(s, p).next);
    HeadJoin(s, t);
  }

  lemma HeadJoin(s: seq<Byte>, t: RequestText)
    requires At(s, 0, PrintLead(t.lead)) && At(s, |PrintLead(t.lead)|, PrintLine(t.line))
    requires At(s, |PrintLead(t.lead)| + |PrintLine(t.line)|, PrintHeaders(t.headers, t.end))
    ensures At(s, 0, Print(t))
  {
    AtJoin(s, |PrintLead(t.lead)|, PrintLine(t.line), PrintHeaders(t.headers, t.end));
    AtJoin(s, 0, PrintLead(t.lead), PrintLine(t.line) + PrintHeaders(t.headers, t.end));
  }

  /** The first `n` octets are the text `t`, a request head with at most `max` headers. */
  ghost predicate IsRequest(s: seq<Byte>, n: nat, max: nat, t: RequestText) {
    WellFormed(t) && |t.headers| <= max && At(s, 0, Print(t)) && n == |Print(t)|
  }

  /** The parser accepts exactly the printed heads, and returns what they say. */
  lemma AcceptsExactlyTheGrammar(s: seq<Byte>, n: nat, max: nat)
    ensures var r := ParseRequest(s, max);
            && ((r.Ok? && r.next == n) <==> exists t :: IsRequest(s, n, max, t))
            && forall t :: IsRequest(s, n, max, t) ==> r.Ok? && Reads(s, r.value, t)
  {
    if ParseRequest(s, max).Ok? {
      var t := RequestOf(s, max);
      RequestAt(s, t, max);
      assert IsRequest(s, ParseRequest(s, max).next, max, t);
    }
    forall t | IsRequest(s, n, max, t)
      ensures ParseRequest(s, max).Ok? && ParseRequest(s, max).next == n && Reads(s, ParseRequest(s, max).value, t)
    {
      RequestAt(s, t, max);
    }
  }
}
