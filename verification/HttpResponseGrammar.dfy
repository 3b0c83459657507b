/** Response heads as concrete syntax: the parser accepts exactly the heads of at most `max` headers, stops exactly at
    their end, and returns their fields. */
module HttpResponseGrammar {
  import opened Bytes
  import opened HttpHead
  import opened HttpScans
  import opened HttpGrammar

  /** Nothing at all, or at least one space and a phrase that may be empty. */
  datatype ReasonText = NoReason | Phrase(spaces: nat, text: seq<Byte>)

  datatype StatusText = StatusText(minor: Byte, spaces: nat, code: nat, reason: ReasonText, eol: Eol)

  datatype ResponseText = ResponseText(line: StatusText, headers: seq<HeaderText>, end: Eol)

  ghost predicate PhraseText(x: seq<Byte>) {
    (forall i :: 0 <= i < |x| ==> !EndsValue(x[i])) && (x != [] ==> x[0] != SP)
  }

  ghost predicate WellFormedStatus(t: StatusText) {
    match t
    case StatusText(minor, spaces, code, reason, _) =>
      && IsDigit(minor) && spaces >= 1 && code < 1000
      && (reason.Phrase? ==> reason.spaces >= 1 && PhraseText(reason.text))
  }

  ghost predicate WellFormedResponse(t: ResponseText) {
    match t
    case ResponseText(line, headers, _) => WellFormedStatus(line) && WellFormedHeaders(headers, 0)
  }

  function PrintCode(code: nat): seq<Byte>
    requires code < 1000
  {
    [48 + code / 100, 48 + code / 10 % 10, 48 + code % 10]
  }

  function PrintReason(r: ReasonText, e: Eol): seq<Byte> {
    match r
    case NoReason => EolText(e)
    case Phrase(spaces, text) => Spaces(spaces) + (text + EolText(e))
  }

  function PrintStatus(t: StatusText): seq<Byte>
    requires t.code < 1000
  {
    PrintVersion(t.minor, Spaces(t.spaces) + (PrintCode(t.code) + PrintReason(t.reason, t.eol)))
  }

  function PrintResponse(t: ResponseText): seq<Byte>
    requires t.line.code < 1000
  {
    PrintStatus(t.line) + PrintHeaders(t.headers, t.end)
  }

  function PhraseOf(r: ReasonText): seq<Byte> {
    if r.NoReason? then [] else r.text
  }

  /** The fields a parse returns are those of the text. */
  ghost predicate StatusReads(s: seq<Byte>, r: Response, t: StatusText) {
    IsDigit(t.minor) && r.minorVersion == Digit(t.minor) && r.status == t.code && Holds(s, r.msg, PhraseOf(t.reason))
  }

  ghost predicate ResponseReads(s: seq<Byte>, r: Response, t: ResponseText) {
    StatusReads(s, r, t.line) && HeadersRead(s, r.headers, t.headers)
  }

  // ---------- reading a printed head ----------

  lemma CodeAt(s: seq<Byte>, p: nat, code: nat)
    requires code < 1000 && At(s, p, PrintCode(code)) && p + 3 < |s|
    ensures StatusCode(s, p) == Ok(code, p + 3) && s[p] != SP
  {
    AtIndex(s, p, PrintCode(code));
  }

  lemma PhraseAt(s: seq<Byte>, p: nat, n: nat, text: seq<Byte>, e: Eol)
    requires n >= 1 && PhraseText(text) && At(s, p, Spaces(n)) && At(s, p + n, text) && At(s, p + n + |text|, EolText(e))
    ensures Reason(s, p) == Ok(Slice(p + n, |text|), p + n + |text| + |EolText(e)|)
  {
    var q := p + n;
    AtJoin(s, p, Spaces(n), text);
    ToEolAt(s, p, Spaces(n) + text, e);
    AtIndex(s, p, Spaces(n));
    AtIndex(s, q, text);
    TrimStartSkip(s, p, q, q + |text|);
  }

  lemma ReasonAt(s: seq<Byte>, p: nat, r: ReasonText, e: Eol)
    requires (r.Phrase? ==> r.spaces >= 1 && PhraseText(r.text)) && At(s, p, PrintReason(r, e))
    ensures var msg := Reason(s, p); msg.Ok? && msg.next == p + |PrintReason(r, e)| && Holds(s, msg.value, PhraseOf(r))
  {
    if r.NoReason? {
      EolAt(s, p, e);
    } else {
      AtSplit(s, p, Spaces(r.spaces), r.text + EolText(e));
      AtSplit(s, p + r.spaces, r.text, EolText(e));
      PhraseAt(s, p, r.spaces, r.text, e);
    }
  }

  lemma StatusParts(s: seq<Byte>, p: nat, t: StatusText)
    requires WellFormedStatus(t) && At(s, p, PrintStatus(t))
    ensures Version(s, p) == Ok(Digit(t.minor), p + 8) && At(s, p + 8, Spaces(t.spaces))
    ensures At(s, p + 8 + t.spaces, PrintCode(t.code)) && At(s, p + 11 + t.spaces, PrintReason(t.reason, t.eol))
  {
    var x, y, z := Spaces(t.spaces), PrintCode(t.code), PrintReason(t.reason, t.eol);
    VersionAt(s, p, t.minor, x + (y + z));
    AtSplit(s, p + 8, x, y + z);
    AtSplit(s, p + 8 + t.spaces, y, z);
  }

  lemma StatusLineOf(s: seq<Byte>, p: nat, minor: nat, p2: nat)
    requires Version(s, p) == Ok(minor, p + 8) && s[p + 8] == SP && SkipSpaces(s, p + 9) == Ok((), p2)
    ensures StatusLine(s, p) == AfterVersion(s, p2, minor)
  {
  }

  lemma StatusLineAt(s: seq<Byte>, p: nat, t: StatusText)
    requires WellFormedStatus(t) && At(s, p, PrintStatus(t))
    ensures var r := StatusLine(s, p); r.Ok? && r.next == p + |PrintStatus(t)| && StatusReads(s, r.value, t)
  {
    var p2 := p + 8 + t.spaces;
    StatusParts(s, p, t);
    ReasonAt(s, p2 + 3, t.reason, t.eol);
    CodeAt(s, p2, t.code);
    SpacesAt(s, p + 8, t.spaces);
    StatusLineOf(s, p, Digit(t.minor), p2);
  }

  ghost predicate ResponseAnswer(s: seq<Byte>, t: ResponseText, max: nat)
    requires t.line.code < 1000
  {
    match ParseResponse(s, max)
    case Ok(r, next) => |t.headers| <= max && next == |PrintResponse(t)| && ResponseReads(s, r, t)
    case Bad => |t.headers| > max
    case Short => false
  }

  lemma ParseResponseOf(s: seq<Byte>, max: nat, line: Response, q: nat)
    requires StatusLine(s, 0) == Ok(line, q)
    ensures ParseResponse(s, max) == match Headers(s, q, 0, max)
                                     case Bad => Bad
                                     case Short => Short
                                     case Ok(headers, next) => Ok(line.(headers := headers), next)
  {
  }

  lemma ResponseAt(s: seq<Byte>, t: ResponseText, max: nat)
    requires WellFormedResponse(t) && At(s, 0, PrintResponse(t))
    ensures ResponseAnswer(s, t, max)
  {
    var q := |PrintStatus(t.line)|;
    AtSplit(s, 0, PrintStatus(t.line), PrintHeaders(t.headers, t.end));
    StatusLineAt(s, 0, t.line);
    if |t.headers| <= max {
      HeadersAt(s, q, t.headers, t.end, 0, max);
    } else {
      TooManyAt(s, q, t.headers, t.end, 0, max);
    }
    ParseResponseOf(s, max, StatusLine(s, 0).value, q);
  }

  lemma ResponseRoundTrip(t: ResponseText, rest: seq<Byte>, max: nat)
    requires WellFormedResponse(t)
    ensures ResponseAnswer(PrintResponse(t) + rest, t, max)
  {
    AtIsSlice(PrintResponse(t) + rest, 0, PrintResponse(t));
    ResponseAt(PrintResponse(t) + rest, t, max);
  }

  // ---------- what is accepted has been printed ----------

  lemma CodeOf(s: seq<Byte>, p: nat)
    requires StatusCode(s, p).Ok?
    ensures StatusCode(s, p).value < 1000 && At(s, p, PrintCode(StatusCode(s, p).value))
  {
    ThreeDigits(Digit(s[p]), Digit(s[p + 1]), Digit(s[p + 2]));
  }

  lemma ThreeDigits(a: nat, b: nat, c: nat)
    requires a < 10 && b < 10 && c < 10
    ensures var n := 100 * a + 10 * b + c; n < 1000 && n / 100 == a && n / 10 % 10 == b && n % 10 == c
  {
    var n := 100 * a + 10 * b + c;
    assert n / 10 == 10 * a + b;
  }

  lemma ReasonOf(s: seq<Byte>, p: nat) returns (r: ReasonText, e: Eol)
    requires Reason(s, p).Ok?
    ensures (r.Phrase? ==> r.spaces >= 1 && PhraseText(r.text)) && At(s, p, PrintReason(r, e))
  {
    var q := FindCtl(s, p).next;
    e := EolOf(s, q);
    if q == p {
      r := NoReason;
    } else {
      var m := TrimStart(s, p, q);
      TrimStartPassed(s, p, q);
      ValuePassed(s, p);
      SpacesOf(s, p, m);
      r := Phrase(m - p, s[m..q]);
      AtJoin(s, m, r.text, EolText(e));
      AtJoin(s, p, Spaces(m - p), r.text + EolText(e));
    }
  }

  lemma StatusOf(s: seq<Byte>, p: nat) returns (t: StatusText)
    requires StatusLine(s, p).Ok?
    ensures WellFormedStatus(t) && At(s, p, PrintStatus(t))
  {
    SpacesPassed(s, p + 9);
    var p2 := SkipSpaces(s, p + 9).next;
    SpacesOf(s, p + 8, p2);
    CodeOf(s, p2);
    var code := StatusCode(s, p2).value;
    var reason, e := ReasonOf(s, p2 + 3);
    t := StatusText(s[p + 7], p2 - (p + 8), code, reason, e);
    StatusJoin(s, p, t);
  }

  lemma StatusJoin(s: seq<Byte>, p: nat, t: StatusText)
    requires Version(s, p).Ok? && t.minor == s[p + 7] && At(s, p + 8, Spaces(t.spaces)) && t.code < 1000
    requires At(s, p + 8 + t.spaces, PrintCode(t.code)) && At(s, p + 11 + t.spaces, PrintReason(t.reason, t.eol))
    ensures IsDigit(t.minor) && At(s, p, PrintStatus(t))
  {
    var x, y, z := Spaces(t.spaces), PrintCode(t.code), PrintReason(t.reason, t.eol);
    AtJoin(s, p + 8 + t.spaces, y, z);
    AtJoin(s, p + 8, x, y + z);
    VersionOf(s, p, x + (y + z));
  }

  /** Whatever the parser accepts is the printed form of some head. */
  lemma ResponseOf(s: seq<Byte>, max: nat) returns (t: ResponseText)
    requires ParseResponse(s, max).Ok?
    ensures WellFormedResponse(t) && |t.headers| <= max && At(s, 0, PrintResponse(t))
  {
    var line := StatusOf(s, 0);
    StatusLineAt(s, 0, line);
    var headers, end := HeadersOf(s, |PrintStatus(line)|, 0, max);
    t := ResponseText(line, headers, end);
    AtJoin(s, 0, PrintStatus(line), PrintHeaders(headers, end));
  }

  /** The first `n` octets are the text `t`, a response head with at most `max` headers. */
  ghost predicate IsResponse(s: seq<Byte>, n: nat, max: nat, t: ResponseText) {
    WellFormedResponse(t) && |t.headers| <= max && At(s, 0, PrintResponse(t)) && n == |PrintResponse(t)|
  }

  /** The parser accepts exactly the printed heads, and returns what they say. */
  lemma ResponsesAreTheGrammar(s: seq<Byte>, n: nat, max: nat)
    ensures var r := ParseResponse(s, max);
            && ((r.Ok? && r.next == n) <==> exists t :: IsResponse(s, n, max, t))
            && forall t :: IsResponse(s, n, max, t) ==> r.Ok? && ResponseReads(s, r.value, t)
  {
    if ParseResponse(s, max).Ok? {
      var t := ResponseOf(s, max);
      ResponseAt(s, t, max);
      assert IsResponse(s, ParseResponse(s, max).next, max, t);
    }
    forall t | IsResponse(s, n, max, t)
      ensures ParseResponse(s, max).Ok? && ParseResponse(s, max).next == n
      ensures ResponseReads(s, ParseResponse(s, max).value, t)
    {
      ResponseAt(s, t, max);
    }
  }
}
