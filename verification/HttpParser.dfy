/** The parser of matsko/31_cache_proxy/picohttpparser-master/picohttpparser.c as it runs: `sse` says whether it was
    compiled for SSE4.2. Both forms are proved to give what the plain scans of HttpHead give. */
module HttpParser {
  import opened Bytes
  import opened HttpHead
  import opened HttpOutputs
  import opened HttpScans

  // ---------- looking for octets in ranges ----------

  type Ranges = seq<(Byte, Byte)>

  predicate InRanges(c: Byte, ranges: Ranges) {
    exists i :: 0 <= i < |ranges| && ranges[i].0 <= c <= ranges[i].1
  }

  const TOKEN_RANGES: Ranges := [(0, 32), (34, 34), (40, 41), (44, 44), (47, 47), (58, 64), (91, 93), (123, 255)]
  const TARGET_RANGES: Ranges := [(0, 32), (127, 127)]
  const VALUE_RANGES: Ranges := [(0, 8), (10, 31), (127, 127)]

  /** Every octet that is no token character is in the ranges; so are `|` and `~`, which are. */
  lemma TokenRanges(c: Byte)
    ensures InRanges(c, TOKEN_RANGES) <==> !IsToken(c) || c == 124 || c == 126
  {
    var r := TOKEN_RANGES;
    assert r[0] == (0, 32) && r[1] == (34, 34) && r[2] == (40, 41) && r[3] == (44, 44);
    assert r[4] == (47, 47) && r[5] == (58, 64) && r[6] == (91, 93) && r[7] == (123, 255);
  }

  lemma TargetRanges(c: Byte)
    ensures InRanges(c, TARGET_RANGES) <==> IsCtl(c) || c == SP
  {
    var r := TARGET_RANGES;
    assert r[0] == (0, 32) && r[1] == (127, 127);
  }

  lemma ValueRanges(c: Byte)
    ensures InRanges(c, VALUE_RANGES) <==> EndsValue(c)
  {
    var r := VALUE_RANGES;
    assert r[0] == (0, 8) && r[1] == (10, 31) && r[2] == (127, 127);
  }

  /** `_mm_cmpestri` on a block of sixteen octets: the index of the first in the ranges, or 16. */
  function CmpEstri(ranges: Ranges, block: seq<Byte>): (r: nat)
    requires |block| <= 16
    ensures r <= 16 && (r < 16 ==> r < |block| && InRanges(block[r], ranges))
    ensures forall k :: 0 <= k < |block| && k < r ==> !InRanges(block[k], ranges)
  {
    if block == [] then 16
    else if InRanges(block[0], ranges) then 0
    else
      var r := CmpEstri(ranges, block[1..]);
      if r == 16 then 16 else r + 1
  }

  /** Skips whole blocks without an octet in the ranges, and stops at the first such octet if one comes in time. */
  method FindCharFast(sse: bool, buf: seq<Byte>, p: nat, ranges: Ranges) returns (q: nat, found: bool)
    requires p <= |buf|
    ensures p <= q <= |buf|
    ensures forall k :: p <= k < q ==> !InRanges(buf[k], ranges)
    ensures found ==> q < |buf| && InRanges(buf[q], ranges)
    ensures if sse then found || |buf| - q < 16 else q == p && !found
  {
    q, found := p, false;
    if sse && |buf| - p >= 16 {
      var left := (|buf| - p) - (|buf| - p) % 16;
      ghost var blocks, rest := (|buf| - p) / 16, (|buf| - p) % 16;
      while left != 0
        invariant p <= q <= |buf| && left == 16 * blocks && |buf| - q == left + rest
        invariant forall k :: p <= k < q ==> !InRanges(buf[k], ranges)
        decreases left
      {
        var block := buf[q..q + 16];
        var r := CmpEstri(ranges, block);
        assert forall k :: q <= k < q + 16 && k < q + r ==> buf[k] == block[k - q];
        if r != 16 {
          assert buf[q + r] == block[r];
          return q + r, true;
        }
        q := q + 16;
        left := left - 16;
        blocks := blocks - 1;
      }
    }
  }

  // ---------- tokens, targets and values ----------

  method ParseToken(sse: bool, buf: seq<Byte>, p: nat, nextChar: Byte) returns (r: Res<Slice>)
    requires p <= |buf| && (nextChar == SP || nextChar == COLON)
    ensures r == Token(buf, p, nextChar)
  {
    var q, found := FindCharFast(sse, buf, p, TOKEN_RANGES);
    forall k | p <= k < q
      ensures IsToken(buf[k]) && buf[k] != nextChar
    {
      TokenRanges(buf[k]);
    }
    TokenSkip(buf, p, q, nextChar);
    if !found && q == |buf| {
      return Short;
    }
    while true
      invariant p <= q < |buf| && TokenEnd(buf, p, nextChar) == TokenEnd(buf, q, nextChar)
      decreases |buf| - q
    {
      if buf[q] == nextChar {
        break;
      } else if !IsToken(buf[q]) {
        return Bad;
      }
      q := q + 1;
      if q == |buf| {
        return Short;
      }
    }
    return Ok(Slice(p, q - p), q);
  }

  method AdvanceToken(sse: bool, buf: seq<Byte>, p: nat) returns (r: Res<Slice>)
    requires p <= |buf|
    ensures r == Target(buf, p)
  {
    var q, found := FindCharFast(sse, buf, p, TARGET_RANGES);
    forall k | p <= k < q
      ensures !IsCtl(buf[k]) && buf[k] != SP
    {
      TargetRanges(buf[k]);
    }
    TargetSkip(buf, p, q);
    if !found && q == |buf| {
      return Short;
    }
    while true
      invariant p <= q < |buf| && TargetEnd(buf, p) == TargetEnd(buf, q)
      decreases |buf| - q
    {
      if buf[q] == SP {
        break;
      } else if !IsPrintable(buf[q]) {
        if buf[q] < 32 || buf[q] == DEL {
          return Bad;
        }
      }
      q := q + 1;
      if q == |buf| {
        return Short;
      }
    }
    return Ok(Slice(p, q - p), q);
  }

  /** The hot loop without SSE4.2: eight tests written out, then the general case. */
  method ScanByEight(buf: seq<Byte>, p: nat) returns (q: nat, found: bool)
    requires p <= |buf|
    ensures p <= q <= |buf| && forall k :: p <= k < q ==> !EndsValue(buf[k])
    ensures found ==> q < |buf| && EndsValue(buf[q])
  {
    q, found := p, false;
    while |buf| - q >= 8
      invariant p <= q <= |buf| && forall k :: p <= k < q ==> !EndsValue(buf[k])
    {
      label NonPrintable: {
        if !IsPrintable(buf[q]) { break NonPrintable; } q := q + 1;
        if !IsPrintable(buf[q]) { break NonPrintable; } q := q + 1;
        if !IsPrintable(buf[q]) { break NonPrintable; } q := q + 1;
        if !IsPrintable(buf[q]) { break NonPrintable; } q := q + 1;
        if !IsPrintable(buf[q]) { break NonPrintable; } q := q + 1;
        if !IsPrintable(buf[q]) { break NonPrintable; } q := q + 1;
        if !IsPrintable(buf[q]) { break NonPrintable; } q := q + 1;
        if !IsPrintable(buf[q]) { break NonPrintable; } q := q + 1;
        continue;
      }
      if (buf[q] < 32 && buf[q] != HT) || buf[q] == DEL {
        return q, true;
      }
      q := q + 1;
    }
  }

  method GetTokenToEol(sse: bool, buf: seq<Byte>, p: nat) returns (r: Res<Slice>)
    requires p <= |buf|
    ensures r == ToEol(buf, p)
  {
    var q, found;
    if sse {
      q, found := FindCharFast(sse, buf, p, VALUE_RANGES);
      forall k | p <= k < q
        ensures !EndsValue(buf[k])
      {
        ValueRanges(buf[k]);
      }
      if found {
        ValueRanges(buf[q]);
      }
    } else {
      q, found := ScanByEight(buf, p);
    }
    ValueSkip(buf, p, q);
    if !found {
      while true
        invariant p <= q <= |buf| && FindCtl(buf, p) == FindCtl(buf, q)
        decreases |buf| - q
      {
        if q == |buf| {
          return Short;
        }
        if !IsPrintable(buf[q]) {
          if (buf[q] < 32 && buf[q] != HT) || buf[q] == DEL {
            break;
          }
        }
        q := q + 1;
      }
    }
    // FOUND_CTL
    if buf[q] == CR {
      if q + 1 == |buf| {
        return Short;
      }
      if buf[q + 1] != LF {
        return Bad;
      }
      return Ok(Slice(p, q - p), q + 2);
    } else if buf[q] == LF {
      return Ok(Slice(p, q - p), q + 1);
    } else {
      return Bad;
    }
  }

  // ---------- the parts of a head ----------

  /** Where a parser stopped, or why it failed. */
  function Stop<T>(r: Res<T>): Res<()> {
    match r case Bad => Bad case Short => Short case Ok(_, q) => Ok((), q)
  }

  method ParseLineBreak(buf: seq<Byte>, p: nat) returns (r: Res<()>)
    requires p < |buf|
    ensures r == LineBreak(buf, p)
  {
    var q := p;
    if buf[q] == CR {
      q := q + 1;
      if q == |buf| {
        return Short;
      }
      if buf[q] != LF {
        return Bad;
      }
      return Ok((), q + 1);
    } else if buf[q] == LF {
      return Ok((), q + 1);
    } else {
      return Bad;
    }
  }

  method ParseHttpVersion(buf: seq<Byte>, p: nat) returns (r: Res<nat>)
    requires p <= |buf|
    ensures r == Version(buf, p)
  {
    if |buf| - p < 9 {
      return Short;
    }
    var expected: seq<Byte> := [72, 84, 84, 80, 47, 49, 46];
    var i := 0;
    while i < 7
      invariant 0 <= i <= 7 && forall k :: 0 <= k < i ==> buf[p + k] == expected[k]
    {
      if buf[p + i] != expected[i] {
        assert buf[p..p + 7][i] != expected[i];
        return Bad;
      }
      i := i + 1;
    }
    assert buf[p..p + 7] == expected;
    if !IsDigit(buf[p + 7]) {
      return Bad;
    }
    return Ok(Digit(buf[p + 7]), p + 8);
  }

  /** The `do ... while (*buf == ' ')` loops, which begin at a character already seen. */
  method ParseSpaces(buf: seq<Byte>, p: nat) returns (r: Res<()>)
    requires p < |buf|
    ensures r == SkipSpaces(buf, p + 1)
  {
    var q := p + 1;
    while q < |buf| && buf[q] == SP
      invariant p < q <= |buf| && SkipSpaces(buf, p + 1) == SkipSpaces(buf, q)
    {
      q := q + 1;
    }
    return if q == |buf| then Short else Ok((), q);
  }

  /** Writes the name into entry `n` as soon as its colon is seen. */
  method ParseHeaderName(sse: bool, buf: seq<Byte>, p: nat, headers: array<Header>, n: nat) returns (r: Res<()>)
    requires p < |buf| && n < headers.Length
    modifies headers
    ensures r == match Token(buf, p, COLON)
                 case Bad => Bad
                 case Short => Short
                 case Ok(name, q) => if name.len == 0 then Bad else SkipBlanks(buf, q + 1)
    ensures headers[..] == old(headers[..])[n := match Token(buf, p, COLON)
                                                 case Ok(name, _) => old(headers[n]).(name := name)
                                                 case _ => old(headers[n])]
  {
    var token := ParseToken(sse, buf, p, COLON);
    if !token.Ok? {
      return if token.Bad? then Bad else Short;
    }
    headers[n] := headers[n].(name := token.value);
    if token.value.len == 0 {
      return Bad;
    }
    var q := token.next + 1;
    ghost var q0 := q;
    while q < |buf| && IsBlank(buf[q])
      invariant q0 <= q <= |buf| && SkipBlanks(buf, q0) == SkipBlanks(buf, q)
    {
      q := q + 1;
    }
    return if q == |buf| then Short else Ok((), q);
  }

  method ParseHeaderValue(sse: bool, buf: seq<Byte>, p: nat) returns (r: Res<Slice>)
    requires p <= |buf|
    ensures r == match Value(buf, p, Null) case Bad => Bad case Short => Short case Ok(h, next) => Ok(h.value, next)
  {
    r := GetTokenToEol(sse, buf, p);
    if !r.Ok? {
      return;
    }
    var end := p + r.value.len;
    ghost var end0 := end;
    while end != p && IsBlank(buf[end - 1])
      invariant p <= end <= end0 && TrimEnd(buf, p, end0) == TrimEnd(buf, p, end)
    {
      end := end - 1;
    }
    return Ok(Slice(p, end - p), r.next);
  }

  /** What reading a line that starts at `p` does to its entry in the array. */
  function Entry(s: seq<Byte>, p: nat, first: bool, was: Header): Header
    requires p < |s|
  {
    match HeaderLine(s, p, first)
    case Ok(h, _) => h
    case _ => match NameWritten(s, p, first) case Name(name) => was.(name := name) case Unwritten => was
  }

  method ParseHeader(sse: bool, buf: seq<Byte>, p: nat, headers: array<Header>, n: nat) returns (r: Res<()>)
    requires p < |buf| && n < headers.Length
    modifies headers
    ensures r == Stop(HeaderLine(buf, p, n == 0))
    ensures headers[..] == old(headers[..])[n := Entry(buf, p, n == 0, old(headers[n]))]
  {
    var q := p;
    if !(n != 0 && IsBlank(buf[q])) {
      r := ParseHeaderName(sse, buf, q, headers, n);
      if !r.Ok? {
        return;
      }
      q := r.next;
    } else {
      headers[n] := headers[n].(name := Null);
    }
    var value := ParseHeaderValue(sse, buf, q);
    if !value.Ok? {
      return if value.Bad? then Bad else Short;
    }
    headers[n] := headers[n].(value := value.value);
    return Ok((), value.next);
  }

  /** The entries of the array after a call that has written `w`. */
  predicate Filled(entries: seq<Header>, was: seq<Header>, w: Written) {
    match w
    case Written(lines, half) =>
      var n := |lines|;
      && n <= |entries| == |was| && entries[..n] == lines
      && (half.Name? ==> n < |was| && entries[n] == was[n].(name := half.name))
      && forall k :: (if half.Name? then n + 1 else n) <= k < |was| ==> entries[k] == was[k]
  }

  /** Before the line at `q`: the first `n` entries and what remains to be read make up the whole. */
  ghost predicate Reading(buf: seq<Byte>, p: nat, max: nat, q: nat, n: nat, entries: seq<Header>, was: seq<Header>) {
    match HeadersWritten(buf, q, n, max)
    case Written(lines, half) =>
      && n <= max <= |entries| == |was| && entries[n..] == was[n..]
      && HeadersWritten(buf, p, 0, max) == Written(entries[..n] + lines, half)
      && Stop(HttpHead.Headers(buf, p, 0, max)) == Stop(HttpHead.Headers(buf, q, n, max))
  }

  /** At the end, with `n` lines read and the answer `r`. */
  ghost predicate HeadersRead(buf: seq<Byte>, p: nat, max: nat, n: nat, entries: seq<Header>, was: seq<Header>,
                              r: Res<()>)
  {
    match HeadersWritten(buf, p, 0, max)
    case Written(lines, half) =>
      r == Stop(HttpHead.Headers(buf, p, 0, max)) && n == |lines| && Filled(entries, was, Written(lines, half))
  }

  lemma ReadingStarts(buf: seq<Byte>, p: nat, max: nat, entries: seq<Header>)
    requires max <= |entries|
    ensures Reading(buf, p, max, p, 0, entries, entries)
  {
    var lines := HeadersWritten(buf, p, 0, max).headers;
    assert entries[..0] + lines == lines;
  }

  lemma SameAt(entries: seq<Header>, was: seq<Header>, n: nat, k: nat)
    requires n <= k < |entries| == |was| && entries[n..] == was[n..]
    ensures entries[k] == was[k]
  {
    assert entries[n..][k - n] == was[n..][k - n];
  }

  /** No line is to be read. */
  lemma EndsHere(buf: seq<Byte>, p: nat, max: nat, q: nat, n: nat, entries: seq<Header>, was: seq<Header>)
    requires Reading(buf, p, max, q, n, entries, was)
    requires q >= |buf| || buf[q] == CR || buf[q] == LF || n == max
    ensures HeadersRead(buf, p, max, n, entries, was, Stop(HttpHead.Headers(buf, q, n, max)))
  {
    assert entries[..n] + [] == entries[..n];
    forall k | n <= k < |was|
      ensures entries[k] == was[k]
    {
      SameAt(entries, was, n, k);
    }
  }

  /** The line fails. */
  lemma FailsHere(buf: seq<Byte>, p: nat, max: nat, q: nat, n: nat, entries: seq<Header>, was: seq<Header>)
    requires Reading(buf, p, max, q, n, entries, was) && q < |buf| && buf[q] != CR && buf[q] != LF && n != max
    requires !HeaderLine(buf, q, n == 0).Ok?
    ensures HeadersRead(buf, p, max, n, entries[n := Entry(buf, q, n == 0, entries[n])], was,
                        Stop(HeaderLine(buf, q, n == 0)))
  {
    assert HeadersWritten(buf, q, n, max) == Written([], NameWritten(buf, q, n == 0));
    assert entries[..n] + [] == entries[..n];
    forall k | n <= k < |was|
      ensures entries[k] == was[k]
    {
      SameAt(entries, was, n, k);
    }
  }

  /** The line is read to its end. */
  lemma GoesOn(buf: seq<Byte>, p: nat, max: nat, q: nat, n: nat, entries: seq<Header>, was: seq<Header>)
    requires Reading(buf, p, max, q, n, entries, was) && q < |buf| && buf[q] != CR && buf[q] != LF && n != max
    requires HeaderLine(buf, q, n == 0).Ok?
    ensures var h := HeaderLine(buf, q, n == 0);
            Reading(buf, p, max, h.next, n + 1, entries[n := Entry(buf, q, n == 0, entries[n])], was)
  {
    OneLine(buf, q, n, max);
    var h := HeaderLine(buf, q, n == 0);
    var lines := HeadersWritten(buf, h.next, n + 1, max).headers;
    assert entries[n := h.value][..n + 1] == entries[..n] + [h.value];
    assert entries[..n] + ([h.value] + lines) == entries[..n] + [h.value] + lines;
    assert entries[n := h.value][n + 1..] == entries[n..][1..] && was[n + 1..] == was[n..][1..];
  }

  lemma OneLine(buf: seq<Byte>, q: nat, n: nat, max: nat)
    requires q < |buf| && buf[q] != CR && buf[q] != LF && n != max && HeaderLine(buf, q, n == 0).Ok?
    ensures var h := HeaderLine(buf, q, n == 0);
            && Stop(HttpHead.Headers(buf, q, n, max)) == Stop(HttpHead.Headers(buf, h.next, n + 1, max))
            && HeadersWritten(buf, q, n, max).headers == [h.value] + HeadersWritten(buf, h.next, n + 1, max).headers
            && HeadersWritten(buf, q, n, max).half == HeadersWritten(buf, h.next, n + 1, max).half
  {
  }

  /** The headers go into the caller's array; a line that fails can leave its name behind them. */
  method ParseHeaders(sse: bool, buf: seq<Byte>, p: nat, headers: array<Header>, maxHeaders: nat)
    returns (r: Res<()>, numHeaders: nat)
    requires p <= |buf| && maxHeaders <= headers.Length
    modifies headers
    ensures r == Stop(HttpHead.Headers(buf, p, 0, maxHeaders))
    ensures var w := HeadersWritten(buf, p, 0, maxHeaders);
            numHeaders == |w.headers| && Filled(headers[..], old(headers[..]), w)
  {
    var q := p;
    numHeaders := 0;
    ghost var was := headers[..];
    ReadingStarts(buf, p, maxHeaders, was);
    while true
      invariant p <= q <= |buf| && 0 <= numHeaders <= maxHeaders
      invariant Reading(buf, p, maxHeaders, q, numHeaders, headers[..], was)
      decreases |buf| - q
    {
      ghost var entries := headers[..];
      if q == |buf| || buf[q] == CR || buf[q] == LF || numHeaders == maxHeaders {
        EndsHere(buf, p, maxHeaders, q, numHeaders, entries, was);
      }
      if q == |buf| {
        return Short, numHeaders;
      }
      if buf[q] == CR || buf[q] == LF {
        r := ParseLineBreak(buf, q);
        return;
      }
      if numHeaders == maxHeaders {
        return Bad, numHeaders;
      }
      r := ParseHeader(sse, buf, q, headers, numHeaders);
      if !r.Ok? {
        FailsHere(buf, p, maxHeaders, q, numHeaders, entries, was);
        return;
      }
      GoesOn(buf, p, maxHeaders, q, numHeaders, entries, was);
      numHeaders := numHeaders + 1;
      q := r.next;
    }
  }

  /** Method, target and version, each handed out once it is read. */
  method ParseRequestLine(sse: bool, buf: seq<Byte>, p: nat)
    returns (r: Res<()>, method_: Slice, path: Slice, minorVersion: int)
    requires p <= |buf|
    ensures r == Stop(RequestLine(buf, p))
    ensures Request(method_, path, minorVersion, []) == RequestLineWritten(buf, p)
  {
    method_, path, minorVersion := Null, Null, -1;
    var token := ParseToken(sse, buf, p, SP);
    if !token.Ok? {
      return if token.Bad? then Bad else Short, method_, path, minorVersion;
    }
    method_ := token.value;
    var q := ParseSpaces(buf, token.next);
    if !q.Ok? {
      return Short, method_, path, minorVersion;
    }
    var target := AdvanceToken(sse, buf, q.next);
    if !target.Ok? {
      return if target.Bad? then Bad else Short, method_, path, minorVersion;
    }
    path := target.value;
    q := ParseSpaces(buf, target.next);
    if !q.Ok? {
      return Short, method_, path, minorVersion;
    }
    if method_.len == 0 || path.len == 0 {
      return Bad, method_, path, minorVersion;
    }
    var version := ParseHttpVersion(buf, q.next);
    if !version.Ok? {
      return if version.Bad? then Bad else Short, method_, path, minorVersion;
    }
    minorVersion := version.value;
    r := ParseLineBreak(buf, version.next);
  }

  method IsComplete(buf: seq<Byte>, lastLen: nat) returns (r: Res<()>)
    requires lastLen <= |buf|
    ensures r == PreCheck(buf, lastLen)
  {
    var count, q := 0, if lastLen < 3 then 0 else lastLen - 3;
    while true
      invariant q <= |buf| && 0 <= count <= 1 && PreCheck(buf, lastLen) == Complete(buf, q, count)
      decreases |buf| - q
    {
      if q == |buf| {
        return Short;
      }
      if buf[q] == CR || buf[q] == LF {
        var next := ParseLineBreak(buf, q);
        if !next.Ok? {
          return next;
        }
        q, count := next.next, count + 1;
      } else {
        q, count := q + 1, 0;
      }
      if count == 2 {
        return Ok((), q);
      }
    }
  }

  /** The number an interface function returns. */
  function Code<T>(r: Res<T>): int {
    match r case Bad => -1 case Short => -2 case Ok(_, next) => next
  }

  /** The parse is begun unless the pre-check ends the call. */
  predicate Begun(buf: seq<Byte>, lastLen: nat) {
    lastLen == 0 || PreCheck(buf, lastLen).Ok?
  }

  /** `parse_request`. */
  method ReadRequest(sse: bool, buf: seq<Byte>, headers: array<Header>, maxHeaders: nat)
    returns (r: Res<()>, method_: Slice, path: Slice, minorVersion: int, numHeaders: nat)
    requires maxHeaders <= headers.Length
    modifies headers
    ensures r == Stop(ParseRequest(buf, maxHeaders)) && numHeaders <= headers.Length
    ensures var out := RequestWritten(buf, maxHeaders);
            && Request(method_, path, minorVersion, headers[..numHeaders]) == out.request
            && Filled(headers[..], old(headers[..]), Written(out.request.headers, out.half))
  {
    method_, path, minorVersion, numHeaders := Null, Null, -1, 0;
    assert headers[..0] == [];
    if |buf| == 0 {
      return Short, method_, path, minorVersion, numHeaders;
    }
    var q := 0;
    if buf[q] == CR || buf[q] == LF {
      r := ParseLineBreak(buf, q);
      if !r.Ok? {
        return;
      }
      q := r.next;
    }
    r, method_, path, minorVersion := ParseRequestLine(sse, buf, q);
    if !r.Ok? {
      return;
    }
    RequestLineComplete(buf, q);
    r, numHeaders := ParseHeaders(sse, buf, r.next, headers, maxHeaders);
  }

  /** `phr_parse_request`: what it answers, and what it leaves in the out-parameters whatever it answers. */
  method PhrParseRequest(sse: bool, buf: seq<Byte>, headers: array<Header>, maxHeaders: nat, lastLen: nat)
    returns (ret: int, method_: Slice, path: Slice, minorVersion: int, numHeaders: nat)
    requires maxHeaders <= headers.Length && lastLen <= |buf|
    modifies headers
    ensures match Checked(buf, lastLen, ParseRequest(buf, maxHeaders))
            case Bad => ret == -1
            case Short => ret == -2
            case Ok(_, next) => ret == next
    ensures numHeaders <= headers.Length
    ensures var out := if Begun(buf, lastLen) then RequestWritten(buf, maxHeaders) else RequestOut(NO_REQUEST, Unwritten);
            && Request(method_, path, minorVersion, headers[..numHeaders]) == out.request
            && Filled(headers[..], old(headers[..]), Written(out.request.headers, out.half))
    ensures var spec := Checked(buf, lastLen, ParseRequest(buf, maxHeaders));
            spec.Ok? ==>
              && spec.value == Request(method_, path, minorVersion, headers[..numHeaders])
              && headers[numHeaders..] == old(headers[numHeaders..])
  {
    method_, path, minorVersion, numHeaders := Null, Null, -1, 0;
    assert headers[..0] == [];
    if lastLen != 0 {
      var complete := IsComplete(buf, lastLen);
      if !complete.Ok? {
        return Code(complete), method_, path, minorVersion, numHeaders;
      }
    }
    var r;
    r, method_, path, minorVersion, numHeaders := ReadRequest(sse, buf, headers, maxHeaders);
    ret := Code(r);
    if r.Ok? {
      RequestComplete(buf, maxHeaders);
    }
  }

  method ParseStatusCode(buf: seq<Byte>, p: nat) returns (r: Res<()>, status: nat)
    requires p <= |buf|
    ensures r == Stop(StatusCode(buf, p)) && status == StatusWritten(buf, p)
  {
    status := 0;
    if |buf| - p < 4 {
      return Short, status;
    }
    if !IsDigit(buf[p]) {
      return Bad, status;
    }
    status := 100 * Digit(buf[p]);
    if !IsDigit(buf[p + 1]) {
      return Bad, status;
    }
    status := status + 10 * Digit(buf[p + 1]);
    if !IsDigit(buf[p + 2]) {
      return Bad, status;
    }
    status := status + Digit(buf[p + 2]);
    return Ok((), p + 3), status;
  }

  /** The loop that drops the spaces before the reason phrase tests no bound: the phrase ends before the input does. */
  method ParseReason(sse: bool, buf: seq<Byte>, p: nat) returns (r: Res<()>, msg: Slice)
    requires p <= |buf|
    ensures r == Stop(Reason(buf, p)) && msg == ReasonWritten(buf, p)
  {
    var line := GetTokenToEol(sse, buf, p);
    if !line.Ok? {
      return if line.Bad? then Bad else Short, Null;
    }
    msg := line.value;
    if msg.len == 0 {
      return Ok((), line.next), msg;
    }
    if buf[p] != SP {
      return Bad, msg;
    }
    var start, len := p + 1, msg.len - 1;
    ghost var end := p + msg.len;
    assert EndsValue(buf[end]);
    while buf[start] == SP
      invariant p < start <= end && len == end - start
      invariant TrimStart(buf, p, end) == TrimStart(buf, start, end)
      decreases end - start
    {
      start, len := start + 1, len - 1;
    }
    return Ok((), line.next), Slice(start, len);
  }

  method ParseStatusLine(sse: bool, buf: seq<Byte>)
    returns (r: Res<()>, minorVersion: int, status: nat, msg: Slice)
    ensures r == Stop(StatusLine(buf, 0))
    ensures Response(minorVersion, status, msg, []) == StatusLineWritten(buf)
  {
    minorVersion, status, msg := -1, 0, Null;
    var version := ParseHttpVersion(buf, 0);
    if !version.Ok? {
      return if version.Bad? then Bad else Short, minorVersion, status, msg;
    }
    minorVersion := version.value;
    if buf[version.next] != SP {
      return Bad, minorVersion, status, msg;
    }
    r := ParseSpaces(buf, version.next);
    if !r.Ok? {
      return Short, minorVersion, status, msg;
    }
    r, status := ParseStatusCode(buf, r.next);
    if !r.Ok? {
      return r, minorVersion, status, msg;
    }
    r, msg := ParseReason(sse, buf, r.next);
  }

  /** `parse_response`. */
  method ReadResponse(sse: bool, buf: seq<Byte>, headers: array<Header>, maxHeaders: nat)
    returns (r: Res<()>, minorVersion: int, status: int, msg: Slice, numHeaders: nat)
    requires maxHeaders <= headers.Length
    modifies headers
    ensures r == Stop(ParseResponse(buf, maxHeaders)) && numHeaders <= headers.Length
    ensures var out := ResponseWritten(buf, maxHeaders);
            && Response(minorVersion, status, msg, headers[..numHeaders]) == out.response
            && Filled(headers[..], old(headers[..]), Written(out.response.headers, out.half))
  {
    numHeaders := 0;
    assert headers[..0] == [];
    r, minorVersion, status, msg := ParseStatusLine(sse, buf);
    if !r.Ok? {
      return;
    }
    StatusLineComplete(buf);
    r, numHeaders := ParseHeaders(sse, buf, r.next, headers, maxHeaders);
  }

  /** `phr_parse_response`. */
  method PhrParseResponse(sse: bool, buf: seq<Byte>, headers: array<Header>, maxHeaders: nat, lastLen: nat)
    returns (ret: int, minorVersion: int, status: int, msg: Slice, numHeaders: nat)
    requires maxHeaders <= headers.Length && lastLen <= |buf|
    modifies headers
    ensures match Checked(buf, lastLen, ParseResponse(buf, maxHeaders))
            case Bad => ret == -1
            case Short => ret == -2
            case Ok(_, next) => ret == next
    ensures numHeaders <= headers.Length
    ensures var out := if Begun(buf, lastLen) then ResponseWritten(buf, maxHeaders) else ResponseOut(NO_RESPONSE, Unwritten);
            && Response(minorVersion, status, msg, headers[..numHeaders]) == out.response
            && Filled(headers[..], old(headers[..]), Written(out.response.headers, out.half))
    ensures var spec := Checked(buf, lastLen, ParseResponse(buf, maxHeaders));
            spec.Ok? ==>
              && spec.value == Response(minorVersion, status, msg, headers[..numHeaders])
              && headers[numHeaders..] == old(headers[numHeaders..])
  {
    minorVersion, status, msg, numHeaders := -1, 0, Null, 0;
    assert headers[..0] == [];
    if lastLen != 0 {
      var complete := IsComplete(buf, lastLen);
      if !complete.Ok? {
        return Code(complete), minorVersion, status, msg, numHeaders;
      }
    }
    var r;
    r, minorVersion, status, msg, numHeaders := ReadResponse(sse, buf, headers, maxHeaders);
    ret := Code(r);
    if r.Ok? {
      ResponseComplete(buf, maxHeaders);
    }
  }

  /** `phr_parse_headers`. */
  method PhrParseHeaders(sse: bool, buf: seq<Byte>, headers: array<Header>, maxHeaders: nat, lastLen: nat)
    returns (ret: int, numHeaders: nat)
    requires maxHeaders <= headers.Length && lastLen <= |buf|
    modifies headers
    ensures match Checked(buf, lastLen, HttpHead.Headers(buf, 0, 0, maxHeaders))
            case Bad => ret == -1
            case Short => ret == -2
            case Ok(_, next) => ret == next
    ensures numHeaders <= headers.Length
    ensures var w := if Begun(buf, lastLen) then HeadersWritten(buf, 0, 0, maxHeaders) else Written([], Unwritten);
            numHeaders == |w.headers| && Filled(headers[..], old(headers[..]), w)
    ensures var spec := Checked(buf, lastLen, HttpHead.Headers(buf, 0, 0, maxHeaders));
            spec.Ok? ==> spec.value == headers[..numHeaders] && headers[numHeaders..] == old(headers[numHeaders..])
  {
    numHeaders := 0;
    assert headers[..0] == [];
    if lastLen != 0 {
      var complete := IsComplete(buf, lastLen);
      if !complete.Ok? {
        return Code(complete), numHeaders;
      }
    }
    var r;
    r, numHeaders := ParseHeaders(sse, buf, 0, headers, maxHeaders);
    ret := Code(r);
    if r.Ok? {
      HeadersComplete(buf, 0, 0, maxHeaders);
    }
  }
}
