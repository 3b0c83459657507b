/** What the out-parameters of the parser hold after a call, whatever the call answers: the parser fills them in as it
    goes, so a call that fails leaves what it had found by then. */
module HttpOutputs {
  import opened Bytes
  import opened HttpHead
  import opened HttpPrefix
  import opened HttpScans

  /** A name that may have been written. */
  datatype Name = Unwritten | Name(name: Slice)

  /** The header lines that were read to their end, and the name written for one more. */
  datatype Written = Written(headers: seq<Header>, half: Name)

  /** A line that is not read to its end has its name in the array as soon as the colon is seen; a line that continues
      another gets the null name. */
  function NameWritten(s: seq<Byte>, p: nat, first: bool): Name
    requires p < |s|
  {
    if !first && IsBlank(s[p]) then Name(Null) else
    match Token(s, p, COLON) case Ok(name, _) => Name(name) case _ => Unwritten
  }

  /** A line that begins with a blank has the null name, unless it is the first; any other has the token before the first
      colon, once that is there. */
  lemma NameExactly(s: seq<Byte>, p: nat, first: bool, len: nat)
    requires p < |s|
    ensures !first && IsBlank(s[p]) ==> NameWritten(s, p, first) == Name(Null)
    ensures first || !IsBlank(s[p]) ==>
              (NameWritten(s, p, first) == Name(Slice(p, len)) <==>
                p + len < |s| && s[p + len] == COLON && forall k :: p <= k < p + len ==> IsToken(s[k]))
    ensures first || !IsBlank(s[p]) ==> NameWritten(s, p, first) != Name(Null)
  {
    if Token(s, p, COLON).Ok? {
      TokenPassed(s, p, COLON);
    }
    if p + len < |s| && s[p + len] == COLON && forall k :: p <= k < p + len ==> IsToken(s[k]) {
      TokenSkip(s, p, p + len, COLON);
    }
  }

  function HeadersWritten(s: seq<Byte>, p: nat, n: nat, max: nat): (w: Written)
    ensures n <= max ==> n + |w.headers| <= max && (w.half.Name? ==> n + |w.headers| < max)
    decreases |s| - p
  {
    if p >= |s| || s[p] == CR || s[p] == LF || n == max then Written([], Unwritten) else
    match HeaderLine(s, p, n == 0)
    case Ok(h, q) => var w := HeadersWritten(s, q, n + 1, max); Written([h] + w.headers, w.half)
    case _ => Written([], NameWritten(s, p, n == 0))
  }

  /** The lines are read one after the other; where they stop at `q` no name is written but that of a line that fails. */
  lemma {:induction false} HeadersStopAt(s: seq<Byte>, p: nat, n: nat, max: nat) returns (q: nat)
    ensures var w := HeadersWritten(s, p, n, max);
            var k := n + |w.headers|;
            if q >= |s| || s[q] in {CR, LF} || k == max then w.half == Unwritten
            else !HeaderLine(s, q, k == 0).Ok? && w.half == NameWritten(s, q, k == 0)
    decreases |s| - p
  {
    q := p;
    if p < |s| && s[p] != CR && s[p] != LF && n != max && HeaderLine(s, p, n == 0).Ok? {
      q := HeadersStopAt(s, HeaderLine(s, p, n == 0).next, n + 1, max);
    }
  }

  /** After success these are the headers of the head, and no name is left over. */
  lemma {:induction false} HeadersComplete(s: seq<Byte>, p: nat, n: nat, max: nat)
    requires Headers(s, p, n, max).Ok?
    ensures HeadersWritten(s, p, n, max) == Written(Headers(s, p, n, max).value, Unwritten)
    decreases |s| - p
  {
    if s[p] != CR && s[p] != LF {
      HeadersComplete(s, HeaderLine(s, p, n == 0).next, n + 1, max);
    }
  }

  // ---------- requests ----------

  const NO_REQUEST := Request(Null, Null, -1, [])

  /** Method, target and version, each from the moment it has been read. */
  function RequestLineWritten(s: seq<Byte>, p: nat): (r: Request)
    ensures r.headers == []
  {
    match Token(s, p, SP)
    case Ok(method_, p1) =>
      (match SkipSpaces(s, p1 + 1)
       case Ok(_, p2) => TargetWritten(s, p2, method_)
       case _ => NO_REQUEST.(method_ := method_))
    case _ => NO_REQUEST
  }

  function TargetWritten(s: seq<Byte>, p: nat, method_: Slice): (r: Request)
    requires method_.Slice?
    ensures r.headers == [] && r.method_ == method_
  {
    var r := NO_REQUEST.(method_ := method_);
    match Target(s, p)
    case Ok(path, p3) =>
      (match SkipSpaces(s, p3 + 1)
       case Ok(_, p4) =>
         if method_.len == 0 || path.len == 0 then r.(path := path) else
         (match Version(s, p4)
          case Ok(minor, _) => Request(method_, path, minor, [])
          case _ => r.(path := path))
       case _ => r.(path := path))
    case _ => r
  }

  /** Each part is handed out as soon as it has been read, whatever comes after it. */
  lemma RequestLineFilled(s: seq<Byte>, p: nat)
    ensures var r, token := RequestLineWritten(s, p), Token(s, p, SP);
            && r.method_ == (if token.Ok? then token.value else Null)
            && (r.path != Null <==> token.Ok? && SkipSpaces(s, token.next).Ok?
                                    && Target(s, SkipSpaces(s, token.next).next).Ok?)
            && (r.path != Null ==> r.path == Target(s, SkipSpaces(s, token.next).next).value)
  {
  }

  /** The version too, unless the method is empty. */
  lemma VersionFilled(s: seq<Byte>, p: nat, method_: Slice)
    requires method_.Slice?
    ensures var r, target := TargetWritten(s, p, method_), Target(s, p);
            r.minorVersion ==
            if method_.len > 0 && target.Ok? && target.value.len > 0 && SkipSpaces(s, target.next).Ok?
               && Version(s, SkipSpaces(s, target.next).next).Ok?
            then Version(s, SkipSpaces(s, target.next).next).value else -1
  {
  }

  lemma RequestLineComplete(s: seq<Byte>, p: nat)
    requires RequestLine(s, p).Ok?
    ensures RequestLineWritten(s, p) == RequestLine(s, p).value
  {
  }

  /** All the out-parameters of a call; `half` is the name in the array behind the headers. */
  datatype RequestOut = RequestOut(request: Request, half: Name)

  function RequestWritten(s: seq<Byte>, max: nat): RequestOut {
    match LeadingBreak(s)
    case Ok(_, p) =>
      (match RequestLine(s, p)
       case Ok(line, q) =>
         var w := HeadersWritten(s, q, 0, max);
         RequestOut(line.(headers := w.headers), w.half)
       case _ => RequestOut(RequestLineWritten(s, p), Unwritten))
    case _ => RequestOut(NO_REQUEST, Unwritten)
  }

  lemma RequestComplete(s: seq<Byte>, max: nat)
    requires ParseRequest(s, max).Ok?
    ensures RequestWritten(s, max) == RequestOut(ParseRequest(s, max).value, Unwritten)
  {
    var p := LeadingBreak(s).next;
    HeadersComplete(s, RequestLine(s, p).next, 0, max);
  }

  // ---------- responses ----------

  const NO_RESPONSE := Response(-1, 0, Null, [])

  /** The digits of the status are added up as they are read. */
  function StatusWritten(s: seq<Byte>, p: nat): nat {
    if p + 4 > |s| || !IsDigit(s[p]) then 0
    else if !IsDigit(s[p + 1]) then 100 * Digit(s[p])
    else if !IsDigit(s[p + 2]) then 100 * Digit(s[p]) + 10 * Digit(s[p + 1])
    else 100 * Digit(s[p]) + 10 * Digit(s[p + 1]) + Digit(s[p + 2])
  }

  /** The rest of the line is written before it is known to start with a space. */
  function ReasonWritten(s: seq<Byte>, p: nat): Slice {
    match ToEol(s, p)
    case Ok(msg, _) =>
      if msg.len == 0 || s[p] != SP then msg
      else var q := TrimStart(s, p, p + msg.len); Slice(q, p + msg.len - q)
    case _ => Null
  }

  function StatusLineWritten(s: seq<Byte>): (r: Response)
    ensures r.headers == []
  {
    match Version(s, 0)
    case Ok(minor, p1) =>
      if s[p1] != SP then NO_RESPONSE.(minorVersion := minor) else
      (match SkipSpaces(s, p1 + 1)
       case Ok(_, p2) =>
         var r := NO_RESPONSE.(minorVersion := minor, status := StatusWritten(s, p2));
         if StatusCode(s, p2).Ok? then r.(msg := ReasonWritten(s, StatusCode(s, p2).next)) else r
       case _ => NO_RESPONSE.(minorVersion := minor))
    case _ => NO_RESPONSE
  }

  lemma StatusLineFilled(s: seq<Byte>)
    ensures var r, version := StatusLineWritten(s), Version(s, 0);
            && r.minorVersion == (if version.Ok? then version.value else -1)
            && (version.Ok? && s[8] == SP && SkipSpaces(s, 9).Ok? ==>
                  var p := SkipSpaces(s, 9).next;
                  && r.status == StatusWritten(s, p)
                  && (r.msg != Null <==> StatusCode(s, p).Ok? && ToEol(s, p + 3).Ok?))
  {
  }

  /** The hundreds are there as soon as the first digit is, and so on, once four octets are. */
  lemma StatusFilled(s: seq<Byte>, p: nat)
    ensures var v := StatusWritten(s, p);
            && v <= 999 && (StatusCode(s, p).Ok? ==> v == StatusCode(s, p).value) && (p + 4 > |s| ==> v == 0)
            && (p + 4 <= |s| && IsDigit(s[p]) ==>
                  && 48 + v / 100 == s[p]
                  && 48 + v / 10 % 10 == (if IsDigit(s[p + 1]) then s[p + 1] else 48)
                  && 48 + v % 10 == (if IsDigit(s[p + 1]) && IsDigit(s[p + 2]) then s[p + 2] else 48))
  {
  }

  datatype ResponseOut = ResponseOut(response: Response, half: Name)

  function ResponseWritten(s: seq<Byte>, max: nat): ResponseOut {
    match StatusLine(s, 0)
    case Ok(line, q) =>
      var w := HeadersWritten(s, q, 0, max);
      ResponseOut(line.(headers := w.headers), w.half)
    case _ => ResponseOut(StatusLineWritten(s), Unwritten)
  }

  lemma StatusLineComplete(s: seq<Byte>)
    requires StatusLine(s, 0).Ok?
    ensures StatusLineWritten(s) == StatusLine(s, 0).value
  {
  }

  lemma ResponseComplete(s: seq<Byte>, max: nat)
    requires ParseResponse(s, max).Ok?
    ensures ResponseWritten(s, max) == ResponseOut(ParseResponse(s, max).value, Unwritten)
  {
    HeadersComplete(s, StatusLine(s, 0).next, 0, max);
  }

  // ---------- what is written stays ----------

  /** `w` was written before `final`. */
  predicate Stays(w: Slice, final: Slice) { w == Null || w == final }

  /** The headers written are the first of the final ones, and the name behind them is that of the next. */
  predicate HeadersStay(w: Written, final: seq<Header>) {
    && w.headers <= final
    && (w.half.Name? ==> |w.headers| < |final| && final[|w.headers|].name == w.half.name)
  }

  lemma NameStays(a: seq<Byte>, s: seq<Byte>, p: nat, first: bool)
    requires a <= s && p < |a| && !HeaderLine(a, p, first).Ok? && HeaderLine(s, p, first).Ok?
    ensures var name := NameWritten(a, p, first); name.Name? ==> HeaderLine(s, p, first).value.name == name.name
  {
    TokenGrows(a, s, p, COLON);
  }

  lemma OneMoreStays(h: Header, w: Written, more: seq<Header>)
    requires HeadersStay(w, more)
    ensures HeadersStay(Written([h] + w.headers, w.half), [h] + more)
  {
  }

  lemma {:induction false} WrittenHeadersStay(a: seq<Byte>, s: seq<Byte>, p: nat, n: nat, max: nat)
    requires a <= s && Headers(s, p, n, max).Ok?
    ensures HeadersStay(HeadersWritten(a, p, n, max), Headers(s, p, n, max).value)
    decreases |s| - p
  {
    if p < |a| && a[p] != CR && a[p] != LF {
      var first := n == 0;
      HeaderLineSettles(a, s, p, first);
      if HeaderLine(a, p, first).Ok? {
        var h := HeaderLine(s, p, first);
        WrittenHeadersStay(a, s, h.next, n + 1, max);
        OneMoreStays(h.value, HeadersWritten(a, h.next, n + 1, max), Headers(s, h.next, n + 1, max).value);
      } else {
        NameStays(a, s, p, first);
      }
    }
  }

  predicate RequestLineStays(w: Request, final: Request) {
    Stays(w.method_, final.method_) && Stays(w.path, final.path) && w.minorVersion in {-1, final.minorVersion}
  }

  lemma TargetStays(a: seq<Byte>, s: seq<Byte>, p: nat, method_: Slice)
    requires a <= s && method_.Slice? && AfterMethod(s, p, method_).Ok?
    ensures RequestLineStays(TargetWritten(a, p, method_), AfterMethod(s, p, method_).value)
  {
    TargetEndGrows(a, s, p);
    if Target(a, p).Ok? {
      var p3 := Target(a, p).next + 1;
      SkipSpacesGrows(a, s, p3);
      if SkipSpaces(a, p3).Ok? {
        VersionGrows(a, s, SkipSpaces(a, p3).next);
      }
    }
  }

  lemma WrittenLineStays(a: seq<Byte>, s: seq<Byte>, p: nat)
    requires a <= s && RequestLine(s, p).Ok?
    ensures RequestLineStays(RequestLineWritten(a, p), RequestLine(s, p).value)
  {
    TokenGrows(a, s, p, SP);
    if Token(a, p, SP).Ok? {
      var method_, p1 := Token(a, p, SP).value, Token(a, p, SP).next + 1;
      var q := SkipSpaces(s, p1).next;
      MethodKept(s, q, method_);
      SkipSpacesGrows(a, s, p1);
      if SkipSpaces(a, p1).Ok? {
        TargetStays(a, s, q, method_);
      }
    }
  }

  lemma MethodKept(s: seq<Byte>, p: nat, method_: Slice)
    requires method_.Slice? && AfterMethod(s, p, method_).Ok?
    ensures AfterMethod(s, p, method_).value.method_ == method_
  {
  }

  /** What a call on a part of a good request fills in is what the call on all of it fills in. */
  lemma WrittenRequestStays(a: seq<Byte>, s: seq<Byte>, max: nat)
    requires a <= s && ParseRequest(s, max).Ok?
    ensures var w, final := RequestWritten(a, max), ParseRequest(s, max).value;
            && RequestLineStays(w.request, final)
            && HeadersStay(Written(w.request.headers, w.half), final.headers)
  {
    LineBreakSettles(a, s, 0);
    if LeadingBreak(a).Ok? {
      var p := LeadingBreak(a).next;
      RequestLineSettles(a, s, p);
      if RequestLine(a, p).Ok? {
        WrittenHeadersStay(a, s, RequestLine(a, p).next, 0, max);
      } else {
        WrittenLineStays(a, s, p);
      }
    }
  }

  predicate StatusLineStays(w: Response, final: Response) {
    w.minorVersion in {-1, final.minorVersion} && w.status in {0, final.status} && Stays(w.msg, final.msg)
  }

  lemma WrittenStatusStays(a: seq<Byte>, s: seq<Byte>)
    requires a <= s && StatusLine(s, 0).Ok?
    ensures StatusLineStays(StatusLineWritten(a), StatusLine(s, 0).value)
  {
    VersionGrows(a, s, 0);
    if Version(a, 0).Ok? {
      var p1 := Version(a, 0).next + 1;
      SkipSpacesGrows(a, s, p1);
      if SkipSpaces(a, p1).Ok? {
        var p2 := SkipSpaces(a, p1).next;
        StatusCodeGrows(a, s, p2);
        if StatusCode(a, p2).Ok? {
          ReasonStays(a, s, StatusCode(a, p2).next);
        }
      }
    }
  }

  lemma ReasonStays(a: seq<Byte>, s: seq<Byte>, p: nat)
    requires a <= s && Reason(s, p).Ok?
    ensures Stays(ReasonWritten(a, p), Reason(s, p).value)
  {
    ReasonSettles(a, s, p);
    ToEolSettles(a, s, p);
  }

  lemma WrittenResponseStays(a: seq<Byte>, s: seq<Byte>, max: nat)
    requires a <= s && ParseResponse(s, max).Ok?
    ensures var w, final := ResponseWritten(a, max), ParseResponse(s, max).value;
            && StatusLineStays(w.response, final)
            && HeadersStay(Written(w.response.headers, w.half), final.headers)
  {
    StatusLineSettles(a, s, 0);
    if StatusLine(a, 0).Ok? {
      WrittenHeadersStay(a, s, StatusLine(a, 0).next, 0, max);
    } else {
      WrittenStatusStays(a, s);
    }
  }
}
