/** What the HTTP/1.x head parser reads, as plain scans over the octets `s` from an index `p` on: the meaning that
    the fast forms of the parser are held against. */
module HttpHead {
  import opened Bytes

  /** The three answers of a parser: `Bad` is -1, `Short` is -2, `Ok` carries a value and where reading stopped. */
  datatype Res<+T> = Bad | Short | Ok(value: T, next: nat)

  /** A pointer and a length into the input; `Null` is the null pointer. */
  datatype Slice = Null | Slice(start: nat, len: nat)

  datatype Header = Header(name: Slice, value: Slice)

  datatype Request = Request(method_: Slice, path: Slice, minorVersion: int, headers: seq<Header>)

  datatype Response = Response(minorVersion: int, status: int, msg: Slice, headers: seq<Header>)

  // ---------- characters ----------

  /** The octets that `token_char_map` marks: the tchar of RFC 7230 section 3.2.6. */
  predicate IsToken(c: Byte) {
    || c == 33 || 35 <= c <= 39 || 42 <= c <= 43 || 45 <= c <= 46 || 48 <= c <= 57
    || 65 <= c <= 90 || 94 <= c <= 122 || c == 124 || c == 126
  }

  predicate IsPrintable(c: Byte) {
    32 <= c < 127
  }

  predicate IsCtl(c: Byte) {
    c < 32 || c == DEL
  }

  /** What ends or spoils a header value: any control character but a tab. */
  predicate EndsValue(c: Byte) {
    IsCtl(c) && c != HT
  }

  predicate IsBlank(c: Byte) {
    c == SP || c == HT
  }

  predicate IsDigit(c: Byte) {
    48 <= c <= 57
  }

  function Digit(c: Byte): nat
    requires IsDigit(c)
  {
    c - 48
  }

  // ---------- scans ----------

  /** The first `stop` with only token characters before it. */
  function TokenEnd(s: seq<Byte>, p: nat, stop: Byte): (r: Res<()>)
    ensures r.Ok? ==> p <= r.next < |s| && s[r.next] == stop
    decreases |s| - p
  {
    if p >= |s| then Short
    else if s[p] == stop then Ok((), p)
    else if !IsToken(s[p]) then Bad
    else TokenEnd(s, p + 1, stop)
  }

  /** The first space with no control character before it. */
  function TargetEnd(s: seq<Byte>, p: nat): (r: Res<()>)
    ensures r.Ok? ==> p <= r.next < |s| && s[r.next] == SP
    decreases |s| - p
  {
    if p >= |s| then Short
    else if s[p] == SP then Ok((), p)
    else if IsCtl(s[p]) then Bad
    else TargetEnd(s, p + 1)
  }

  function FindCtl(s: seq<Byte>, p: nat): (r: Res<()>)
    ensures r.Ok? ==> p <= r.next < |s| && EndsValue(s[r.next])
    ensures !r.Bad?
    decreases |s| - p
  {
    if p >= |s| then Short
    else if EndsValue(s[p]) then Ok((), p)
    else FindCtl(s, p + 1)
  }

  function SkipSpaces(s: seq<Byte>, p: nat): (r: Res<()>)
    ensures r.Ok? ==> p <= r.next < |s| && s[r.next] != SP
    ensures !r.Bad?
    decreases |s| - p
  {
    if p >= |s| then Short else if s[p] == SP then SkipSpaces(s, p + 1) else Ok((), p)
  }

  function SkipBlanks(s: seq<Byte>, p: nat): (r: Res<()>)
    ensures r.Ok? ==> p <= r.next < |s| && !IsBlank(s[r.next])
    ensures !r.Bad?
    decreases |s| - p
  {
    if p >= |s| then Short else if IsBlank(s[p]) then SkipBlanks(s, p + 1) else Ok((), p)
  }

  /** The end of a value without its trailing blanks. */
  function TrimEnd(s: seq<Byte>, start: nat, end: nat): (e: nat)
    requires start <= end <= |s|
    ensures start <= e <= end
    ensures e > start ==> !IsBlank(s[e - 1])
  {
    if end != start && IsBlank(s[end - 1]) then TrimEnd(s, start, end - 1) else end
  }

  /** The start of a reason phrase without the spaces before it. */
  function TrimStart(s: seq<Byte>, start: nat, end: nat): (q: nat)
    requires start <= end <= |s|
    ensures start <= q <= end
    ensures q < end ==> s[q] != SP
    decreases end - start
  {
    if start < end && s[start] == SP then TrimStart(s, start + 1, end) else start
  }

  /** A line feed, or a carriage return and a line feed. */
  function LineBreak(s: seq<Byte>, p: nat): (r: Res<()>)
    ensures r.Ok? ==> p < r.next <= |s| && s[r.next - 1] == LF
  {
    if p >= |s| then Short
    else if s[p] == CR then
      if p + 1 >= |s| then Short else if s[p + 1] == LF then Ok((), p + 2) else Bad
    else if s[p] == LF then Ok((), p + 1)
    else Bad
  }

  // ---------- the parts of a head ----------

  function Token(s: seq<Byte>, p: nat, stop: Byte): (r: Res<Slice>)
    ensures r.Ok? ==> p <= r.next < |s| && s[r.next] == stop
  {
    match TokenEnd(s, p, stop)
    case Bad => Bad
    case Short => Short
    case Ok(_, q) => Ok(Slice(p, q - p), q)
  }

  function Target(s: seq<Byte>, p: nat): (r: Res<Slice>)
    ensures r.Ok? ==> p <= r.next < |s| && s[r.next] == SP
  {
    match TargetEnd(s, p)
    case Bad => Bad
    case Short => Short
    case Ok(_, q) => Ok(Slice(p, q - p), q)
  }

  /** The rest of a line, without the line break that must end it. */
  function ToEol(s: seq<Byte>, p: nat): (r: Res<Slice>)
    ensures r.Ok? ==> p < r.next <= |s| && s[r.next - 1] == LF
    ensures r.Ok? ==> r.value.Slice? && r.value.start == p && p + r.value.len < r.next
  {
    match FindCtl(s, p)
    case Bad => Bad
    case Short => Short
    case Ok(_, q) =>
      match LineBreak(s, q)
      case Bad => Bad
      case Short => Short
      case Ok(_, next) => Ok(Slice(p, q - p), next)
  }

  /** `HTTP/1.` and a digit; a ninth octet must be there already. */
  function Version(s: seq<Byte>, p: nat): (r: Res<nat>)
    ensures r.Ok? ==> r.next == p + 8 < |s|
  {
    if p + 9 > |s| then Short
    else if s[p..p + 7] == [72, 84, 84, 80, 47, 49, 46] && IsDigit(s[p + 7]) then Ok(Digit(s[p + 7]), p + 8)
    else Bad
  }

  /** One header line; `first` says that it cannot continue an earlier one. */
  function HeaderLine(s: seq<Byte>, p: nat, first: bool): (r: Res<Header>)
    ensures r.Ok? ==> p < r.next <= |s| && s[r.next - 1] == LF
  {
    if p >= |s| then Short
    else if !first && IsBlank(s[p]) then Value(s, p, Null)
    else
      match Token(s, p, COLON)
      case Bad => Bad
      case Short => Short
      case Ok(name, q) =>
        if name.len == 0 then Bad else
        match SkipBlanks(s, q + 1)
        case Bad => Bad
        case Short => Short
        case Ok(_, v) => Value(s, v, name)
  }

  function Value(s: seq<Byte>, p: nat, name: Slice): (r: Res<Header>)
    ensures r.Ok? ==> p < r.next <= |s| && s[r.next - 1] == LF
  {
    match ToEol(s, p)
    case Bad => Bad
    case Short => Short
    case Ok(line, next) => Ok(Header(name, Slice(p, TrimEnd(s, p, p + line.len) - p)), next)
  }

  /** The header lines from the `n`th on, up to the blank line. */
  function Headers(s: seq<Byte>, p: nat, n: nat, max: nat): (r: Res<seq<Header>>)
    ensures r.Ok? ==> p < r.next <= |s|
    decreases |s| - p
  {
    if p >= |s| then Short
    else if s[p] == CR || s[p] == LF then
      match LineBreak(s, p)
      case Bad => Bad
      case Short => Short
      case Ok(_, q) => Ok([], q)
    else if n == max then Bad
    else
      match HeaderLine(s, p, n == 0)
      case Bad => Bad
      case Short => Short
      case Ok(h, q) => Prepend([h], Headers(s, q, n + 1, max))
  }

  function Prepend(hs: seq<Header>, r: Res<seq<Header>>): Res<seq<Header>> {
    match r
    case Bad => Bad
    case Short => Short
    case Ok(more, q) => Ok(hs + more, q)
  }

  /** The empty line that some clients send before a request. */
  function LeadingBreak(s: seq<Byte>): Res<()> {
    if |s| > 0 && s[0] != CR && s[0] != LF then Ok((), 0) else LineBreak(s, 0)
  }

  /** Method, target and version, up to and with the line break. */
  function RequestLine(s: seq<Byte>, p: nat): (r: Res<Request>)
    ensures r.Ok? ==> p < r.next <= |s| && s[r.next - 1] == LF
  {
    match Token(s, p, SP)
    case Bad => Bad
    case Short => Short
    case Ok(method_, p1) =>
      match SkipSpaces(s, p1 + 1)
      case Bad => Bad
      case Short => Short
      case Ok(_, p2) => AfterMethod(s, p2, method_)
  }

  function AfterMethod(s: seq<Byte>, p: nat, method_: Slice): (r: Res<Request>)
    requires method_.Slice?
    ensures r.Ok? ==> p < r.next <= |s| && s[r.next - 1] == LF
  {
    match Target(s, p)
    case Bad => Bad
    case Short => Short
    case Ok(path, p3) =>
      match SkipSpaces(s, p3 + 1)
      case Bad => Bad
      case Short => Short
      case Ok(_, p4) => if method_.len == 0 || path.len == 0 then Bad else AfterTarget(s, p4, method_, path)
  }

  function AfterTarget(s: seq<Byte>, p: nat, method_: Slice, path: Slice): (r: Res<Request>)
    ensures r.Ok? ==> p < r.next <= |s| && s[r.next - 1] == LF
  {
    match Version(s, p)
    case Bad => Bad
    case Short => Short
    case Ok(minor, p5) =>
      match LineBreak(s, p5)
      case Bad => Bad
      case Short => Short
      case Ok(_, p6) => Ok(Request(method_, path, minor, []), p6)
  }

  function ParseRequest(s: seq<Byte>, max: nat): (r: Res<Request>)
    ensures r.Ok? ==> r.next <= |s|
  {
    match LeadingBreak(s)
    case Bad => Bad
    case Short => Short
    case Ok(_, p) =>
      match RequestLine(s, p)
      case Bad => Bad
      case Short => Short
      case Ok(line, q) =>
        match Headers(s, q, 0, max)
        case Bad => Bad
        case Short => Short
        case Ok(headers, next) => Ok(line.(headers := headers), next)
  }

  /** Three digits; a fourth octet must be there already. */
  function StatusCode(s: seq<Byte>, p: nat): (r: Res<nat>)
    ensures r.Ok? ==> r.next == p + 3 < |s|
  {
    if p + 4 > |s| then Short
    else if IsDigit(s[p]) && IsDigit(s[p + 1]) && IsDigit(s[p + 2]) then
      Ok(100 * Digit(s[p]) + 10 * Digit(s[p + 1]) + Digit(s[p + 2]), p + 3)
    else Bad
  }

  /** The reason phrase: nothing, or what follows at least one space. */
  function Reason(s: seq<Byte>, p: nat): (r: Res<Slice>)
    ensures r.Ok? ==> p < r.next <= |s| && s[r.next - 1] == LF
  {
    match ToEol(s, p)
    case Bad => Bad
    case Short => Short
    case Ok(msg, next) =>
      if msg.len == 0 then Ok(msg, next)
      else if s[p] != SP then Bad
      else var q := TrimStart(s, p, p + msg.len); Ok(Slice(q, p + msg.len - q), next)
  }

  function StatusLine(s: seq<Byte>, p: nat): (r: Res<Response>)
    ensures r.Ok? ==> p < r.next <= |s| && s[r.next - 1] == LF
  {
    match Version(s, p)
    case Bad => Bad
    case Short => Short
    case Ok(minor, p1) =>
      if s[p1] != SP then Bad else
      match SkipSpaces(s, p1 + 1)
      case Bad => Bad
      case Short => Short
      case Ok(_, p2) => AfterVersion(s, p2, minor)
  }

  function AfterVersion(s: seq<Byte>, p: nat, minor: nat): (r: Res<Response>)
    ensures r.Ok? ==> p < r.next <= |s| && s[r.next - 1] == LF
  {
    match StatusCode(s, p)
    case Bad => Bad
    case Short => Short
    case Ok(status, p3) =>
      match Reason(s, p3)
      case Bad => Bad
      case Short => Short
      case Ok(msg, p4) => Ok(Response(minor, status, msg, []), p4)
  }

  function ParseResponse(s: seq<Byte>, max: nat): (r: Res<Response>)
    ensures r.Ok? ==> r.next <= |s|
  {
    match StatusLine(s, 0)
    case Bad => Bad
    case Short => Short
    case Ok(line, q) =>
      match Headers(s, q, 0, max)
      case Bad => Bad
      case Short => Short
      case Ok(headers, next) => Ok(line.(headers := headers), next)
  }

  /** The pre-check: two line breaks in a row; `count` of them have just been read. */
  function Complete(s: seq<Byte>, p: nat, count: nat): (r: Res<()>)
    ensures r.Ok? ==> r.next <= |s|
    decreases |s| - p
  {
    if p >= |s| then Short
    else if s[p] != CR && s[p] != LF then Complete(s, p + 1, 0)
    else
      match LineBreak(s, p)
      case Bad => Bad
      case Short => Short
      case Ok(_, q) => if count == 1 then Ok((), q) else Complete(s, q, count + 1)
  }

  /** It starts three octets before the end of what was there at the last call. */
  function PreCheck(s: seq<Byte>, lastLen: nat): Res<()> {
    Complete(s, if lastLen < 3 then 0 else lastLen - 3, 0)
  }

  /** A parse with the pre-check in front of it when there was an earlier call. */
  function Checked<T>(s: seq<Byte>, lastLen: nat, r: Res<T>): Res<T> {
    if lastLen == 0 then r else
    match PreCheck(s, lastLen)
    case Bad => Bad
    case Short => Short
    case Ok(_, _) => r
  }
}
