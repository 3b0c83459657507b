/** The chunked coding of RFC 7230 section 4.1 as concrete syntax, as generously as the decoder reads it:
    the decoder accepts exactly this grammar and returns exactly the chunk data. */
module ChunkedGrammar {
  import opened Bytes
  import opened Chunked

  /** The line of a chunk: size digits, extension (with the CR, if any), and the line feed. */
  datatype SizeLine = SizeLine(digits: seq<Byte>, ext: seq<Byte>)

  datatype Chunk = Chunk(line: SizeLine, data: seq<Byte>, crs: nat)

  /** `trailer` and `endCrs` are read only by a decoder that consumes the trailer. */
  datatype Message = Message(chunks: seq<Chunk>, last: SizeLine, trailer: seq<seq<Byte>>, endCrs: nat)

  predicate AllHex(s: seq<Byte>) {
    forall i :: 0 <= i < |s| ==> IsHex(s[i])
  }

  /** The number the digits write in base sixteen. */
  function SizeValue(digits: seq<Byte>): int {
    if digits == [] then 0 else SizeValue(digits[..|digits| - 1]) * 16 + DecodeHex(digits[|digits| - 1])
  }

  ghost predicate WellFormedLine(line: SizeLine) {
    && 1 <= |line.digits| <= MAX_DIGITS && AllHex(line.digits)
    && LF !in line.ext && (line.ext != [] ==> !IsHex(line.ext[0]))
  }

  ghost predicate WellFormedChunk(c: Chunk) {
    WellFormedLine(c.line) && c.data != [] && SizeValue(c.line.digits) == |c.data|
  }

  /** A trailer line is any line that is not blank, a blank line being only CRs. */
  ghost predicate TrailerLine(line: seq<Byte>) {
    LF !in line && exists i :: 0 <= i < |line| && line[i] != CR
  }

  ghost predicate WellFormed(m: Message) {
    && (forall i :: 0 <= i < |m.chunks| ==> WellFormedChunk(m.chunks[i]))
    && WellFormedLine(m.last) && SizeValue(m.last.digits) == 0
    && (forall i :: 0 <= i < |m.trailer| ==> TrailerLine(m.trailer[i]))
  }

  function Crs(n: nat): (s: seq<Byte>)
    ensures |s| == n
  {
    if n == 0 then [] else [CR] + Crs(n - 1)
  }

  function EncodeLine(line: SizeLine): seq<Byte> {
    line.digits + line.ext + [LF]
  }

  function EncodeChunk(c: Chunk): seq<Byte> {
    EncodeLine(c.line) + c.data + (Crs(c.crs) + [LF])
  }

  function EncodeChunks(cs: seq<Chunk>): seq<Byte> {
    if cs == [] then [] else EncodeChunk(cs[0]) + EncodeChunks(cs[1..])
  }

  function EncodeTrailer(lines: seq<seq<Byte>>, endCrs: nat): seq<Byte> {
    if lines == [] then Crs(endCrs) + [LF] else lines[0] + [LF] + EncodeTrailer(lines[1..], endCrs)
  }

  function Encode(m: Message, consumeTrailer: bool): seq<Byte> {
    EncodeChunks(m.chunks) + (EncodeLine(m.last) + if consumeTrailer then EncodeTrailer(m.trailer, m.endCrs) else [])
  }

  function Payload(cs: seq<Chunk>): seq<Byte> {
    if cs == [] then [] else cs[0].data + Payload(cs[1..])
  }

  // ---------- reading an encoding ----------

  lemma {:induction false} SizeValueBound(digits: seq<Byte>)
    requires AllHex(digits)
    ensures 0 <= SizeValue(digits) < Pow16(|digits|)
  {
    if digits != [] {
      SizeValueBound(digits[..|digits| - 1]);
    }
  }

  lemma SizeValueFits(digits: seq<Byte>)
    requires AllHex(digits) && |digits| <= MAX_DIGITS
    ensures 0 <= SizeValue(digits) < SIZE_LIMIT
  {
    SizeValueBound(digits);
    Pow16Monotone(|digits|, MAX_DIGITS);
    Pow16Limit();
  }

  /** What follows a size line that said `left`. */
  function AfterLine(left: Size, c: bool, s: seq<Byte>): Outcome {
    if left != 0 then Run(Decoder(left, c, 0, InData), s)
    else if c then Run(Decoder(0, c, 0, InTrailerHead), s)
    else Outcome(Complete, [], Decoder(0, c, 0, InExt), 0)
  }

  /** The decoder after the size digits `p`. */
  function AfterDigits(c: bool, p: seq<Byte>): Decoder
    requires AllHex(p) && |p| <= MAX_DIGITS
  {
    SizeValueFits(p);
    Decoder(SizeValue(p), c, |p|, InSize)
  }

  lemma StepDigit(c: bool, p: seq<Byte>, x: Byte)
    requires AllHex(p + [x]) && |p| < MAX_DIGITS && AllHex(p)
    ensures Step(AfterDigits(c, p), x) == Go(AfterDigits(c, p + [x]), false)
  {
    assert IsHex((p + [x])[|p|]) && (p + [x])[..|p|] == p;
    SizeValueFits(p);
    SizeValueBound(p);
    AccumulateExact(SizeValue(p), |p|, DecodeHex(x));
  }

  lemma {:induction false} RunDigits(c: bool, p: seq<Byte>, q: seq<Byte>, s: seq<Byte>)
    requires AllHex(p) && AllHex(p + q) && |p + q| <= MAX_DIGITS
    ensures Run(AfterDigits(c, p), q + s) == Run(AfterDigits(c, p + q), s).After([], |q|)
    decreases |q|
  {
    if q == [] {
      assert q + s == s && p + q == p;
    } else {
      var p1 := p + [q[0]];
      assert p1 + q[1..] == p + q && (q + s)[1..] == q[1..] + s;
      assert forall i :: 0 <= i < |p1| ==> p1[i] == (p + q)[i];
      StepDigit(c, p, q[0]);
      RunDigits(c, p1, q[1..], s);
    }
  }

  lemma {:induction false} RunExt(left: Size, c: bool, ext: seq<Byte>, s: seq<Byte>)
    requires LF !in ext
    ensures Run(Decoder(left, c, 0, InExt), ext + [LF] + s) == AfterLine(left, c, s).After([], |ext| + 1)
    decreases |ext|
  {
    var t := ext + [LF] + s;
    if ext == [] {
      assert t[1..] == s;
    } else {
      assert t[1..] == ext[1..] + [LF] + s;
      RunExt(left, c, ext[1..], s);
    }
  }

  lemma RunLine(c: bool, line: SizeLine, s: seq<Byte>)
    requires WellFormedLine(line)
    ensures 0 <= SizeValue(line.digits) < SIZE_LIMIT
    ensures Run(Start(c), EncodeLine(line) + s) == AfterLine(SizeValue(line.digits), c, s).After([], |EncodeLine(line)|)
  {
    var d := AfterDigits(c, line.digits);
    var t := line.ext + [LF] + s;
    assert EncodeLine(line) + s == line.digits + t && [] + line.digits == line.digits;
    RunDigits(c, [], line.digits, t);
    RunExt(d.left, c, line.ext, s);
    assert t[0] == if line.ext == [] then LF else line.ext[0];
    assert Run(d, t) == Run(d.(hexCount := 0, phase := InExt), t);
  }

  lemma {:induction false} RunCrs(d: Decoder, n: nat, s: seq<Byte>)
    requires d.phase == InCrlf || d.phase == InTrailerHead
    ensures Run(d, Crs(n) + s) == Run(d, s).After([], n)
  {
    if n == 0 {
      assert Crs(n) + s == s;
    } else {
      assert (Crs(n) + s)[1..] == Crs(n - 1) + s;
      RunCrs(d, n - 1, s);
    }
  }

  lemma RunCrlf(c: bool, crs: nat, s: seq<Byte>)
    ensures Run(Decoder(0, c, 0, InCrlf), Crs(crs) + ([LF] + s)) == Run(Start(c), s).After([], crs + 1)
  {
    RunCrs(Decoder(0, c, 0, InCrlf), crs, [LF] + s);
    assert ([LF] + s)[1..] == s;
    AfterAfter(Run(Start(c), s), [], 1, [], crs);
  }

  lemma RunBody(c: bool, data: seq<Byte>, crs: nat, s: seq<Byte>)
    requires 0 < |data| < SIZE_LIMIT
    ensures Run(Decoder(|data|, c, 0, InData), data + (Crs(crs) + ([LF] + s))) ==
            Run(Start(c), s).After(data, |data| + crs + 1)
  {
    var u := Crs(crs) + ([LF] + s);
    RunDataThen(Decoder(|data|, c, 0, InData), data, u);
    RunCrlf(c, crs, s);
    AfterAfter(Run(Start(c), s), [], crs + 1, data, |data|);
    assert data + [] == data;
  }

  lemma RunChunk(c: bool, chunk: Chunk, s: seq<Byte>)
    requires WellFormedChunk(chunk)
    ensures Run(Start(c), EncodeChunk(chunk) + s) == Run(Start(c), s).After(chunk.data, |EncodeChunk(chunk)|)
  {
    var n := |chunk.data|;
    var t := chunk.data + (Crs(chunk.crs) + ([LF] + s));
    assert EncodeChunk(chunk) + s == EncodeLine(chunk.line) + t;
    RunLine(c, chunk.line, t);
    RunBody(c, chunk.data, chunk.crs, s);
    AfterAfter(Run(Start(c), s), chunk.data, n + chunk.crs + 1, [], |EncodeLine(chunk.line)|);
    assert [] + chunk.data == chunk.data;
  }

  lemma {:induction false} RunChunks(c: bool, cs: seq<Chunk>, s: seq<Byte>)
    requires forall i :: 0 <= i < |cs| ==> WellFormedChunk(cs[i])
    ensures Run(Start(c), EncodeChunks(cs) + s) == Run(Start(c), s).After(Payload(cs), |EncodeChunks(cs)|)
  {
    if cs == [] {
      assert EncodeChunks(cs) + s == s;
    } else {
      var t := EncodeChunks(cs[1..]) + s;
      assert EncodeChunks(cs) + s == EncodeChunk(cs[0]) + t;
      RunChunk(c, cs[0], t);
      RunChunks(c, cs[1..], s);
      AfterAfter(Run(Start(c), s), Payload(cs[1..]), |EncodeChunks(cs[1..])|, cs[0].data, |EncodeChunk(cs[0])|);
    }
  }

  function Head(): Decoder {
    Decoder(0, true, 0, InTrailerHead)
  }

  lemma {:induction false} RunMiddle(line: seq<Byte>, s: seq<Byte>)
    requires LF !in line
    ensures Run(Head().(phase := InTrailerMiddle), line + [LF] + s) == Run(Head(), s).After([], |line| + 1)
  {
    var t := line + [LF] + s;
    if line == [] {
      assert t[1..] == s;
    } else {
      assert t[1..] == line[1..] + [LF] + s;
      RunMiddle(line[1..], s);
    }
  }

  lemma {:induction false} RunTrailerLine(line: seq<Byte>, s: seq<Byte>)
    requires TrailerLine(line)
    ensures Run(Head(), line + [LF] + s) == Run(Head(), s).After([], |line| + 1)
  {
    var t := line + [LF] + s;
    assert t[1..] == line[1..] + [LF] + s;
    assert t[0] == line[0] != LF;
    if line[0] == CR {
      var i :| 0 <= i < |line| && line[i] != CR;
      assert line[1..][i - 1] != CR;
      RunTrailerLine(line[1..], s);
    } else {
      RunMiddle(line[1..], s);
    }
  }

  lemma {:induction false} RunTrailer(lines: seq<seq<Byte>>, endCrs: nat, s: seq<Byte>)
    requires forall i :: 0 <= i < |lines| ==> TrailerLine(lines[i])
    ensures Run(Head(), EncodeTrailer(lines, endCrs) + s) ==
            Outcome(Complete, [], Head(), |EncodeTrailer(lines, endCrs)|)
  {
    if lines == [] {
      assert EncodeTrailer(lines, endCrs) + s == Crs(endCrs) + ([LF] + s);
      RunCrs(Head(), endCrs, [LF] + s);
    } else {
      var t := EncodeTrailer(lines[1..], endCrs) + s;
      assert EncodeTrailer(lines, endCrs) + s == lines[0] + [LF] + t;
      RunTrailerLine(lines[0], t);
      RunTrailer(lines[1..], endCrs, s);
    }
  }

  /** The decoder a completed decoding leaves behind. */
  function Finished(c: bool): Decoder {
    if c then Head() else Decoder(0, false, 0, InExt)
  }

  /** Every encoding decodes to its payload, and decoding stops exactly where the encoding does. */
  lemma RoundTrip(c: bool, m: Message, rest: seq<Byte>)
    requires WellFormed(m)
    ensures Decode(Start(c), Encode(m, c) + rest) == Outcome(Complete, Payload(m.chunks), Finished(c), |Encode(m, c)|)
  {
    var trailer := if c then EncodeTrailer(m.trailer, m.endCrs) else [];
    var t := EncodeLine(m.last) + (trailer + rest);
    assert Encode(m, c) + rest == EncodeChunks(m.chunks) + t;
    RunChunks(c, m.chunks, t);
    RunLine(c, m.last, trailer + rest);
    if c {
      RunTrailer(m.trailer, m.endCrs, rest);
    }
    assert Payload(m.chunks) + [] == Payload(m.chunks);
  }

  // ---------- only encodings are accepted ----------

  lemma {:induction false} FindExt(left: Size, c: bool, s: seq<Byte>) returns (ext: seq<Byte>, rest: seq<Byte>)
    requires Run(Decoder(left, c, 0, InExt), s).status == Complete
    ensures LF !in ext && s == ext + [LF] + rest
    ensures AfterLine(left, c, rest).status == Complete
    decreases |s|
  {
    if s[0] == LF {
      ext, rest := [], s[1..];
    } else {
      ext, rest := FindExt(left, c, s[1..]);
      ext := [s[0]] + ext;
    }
  }

  lemma {:induction false} FindLine(c: bool, p: seq<Byte>, s: seq<Byte>) returns (line: SizeLine, rest: seq<Byte>)
    requires AllHex(p) && |p| <= MAX_DIGITS && Run(AfterDigits(c, p), s).status == Complete
    ensures WellFormedLine(line) && p + s == EncodeLine(line) + rest
    ensures 0 <= SizeValue(line.digits) < SIZE_LIMIT
    ensures AfterLine(SizeValue(line.digits), c, rest).status == Complete
    decreases |s|
  {
    if IsHex(s[0]) {
      StepDigit(c, p, s[0]);
      line, rest := FindLine(c, p + [s[0]], s[1..]);
      assert p + s == p + [s[0]] + s[1..];
    } else {
      var ext;
      SizeValueFits(p);
      assert Run(AfterDigits(c, p), s) == Run(Decoder(SizeValue(p), c, 0, InExt), s);
      ext, rest := FindExt(SizeValue(p), c, s);
      line := SizeLine(p, ext);
      assert ext != [] ==> ext[0] == s[0];
      assert p + s == p + ext + [LF] + rest;
    }
  }

  lemma {:induction false} FindCrs(d: Decoder, s: seq<Byte>) returns (n: nat, rest: seq<Byte>)
    requires d.phase == InCrlf || d.phase == InTrailerHead
    requires Run(d, s).status == Complete
    ensures s == Crs(n) + rest && rest != [] && rest[0] != CR && Run(d, rest).status == Complete
    decreases |s|
  {
    if s[0] == CR {
      n, rest := FindCrs(d, s[1..]);
      n := n + 1;
    } else {
      n, rest := 0, s;
    }
  }

  lemma ShortData(d: Decoder, s: seq<Byte>)
    requires d.phase == InData && |s| < d.left
    ensures Run(d, s).status == Incomplete
  {
    RunData(d, s, |s|);
    assert s[|s|..] == [];
  }

  lemma FindData(left: Size, c: bool, s: seq<Byte>) returns (data: seq<Byte>, crs: nat, rest: seq<Byte>)
    requires left > 0 && Run(Decoder(left, c, 0, InData), s).status == Complete
    ensures |data| == left && s == data + (Crs(crs) + [LF]) + rest
    ensures Run(Start(c), rest).status == Complete
  {
    var d := Decoder(left, c, 0, InData);
    if |s| < left {
      ShortData(d, s);
    }
    RunData(d, s, left);
    data := s[..left];
    var tail;
    crs, tail := FindCrs(Decoder(0, c, 0, InCrlf), s[left..]);
    rest := tail[1..];
    assert s == data + s[left..] && tail == [LF] + rest;
  }

  lemma FindChunk(c: bool, line: SizeLine, t: seq<Byte>) returns (chunk: Chunk, rest: seq<Byte>)
    requires WellFormedLine(line) && 0 < SizeValue(line.digits) < SIZE_LIMIT
    requires AfterLine(SizeValue(line.digits), c, t).status == Complete
    ensures WellFormedChunk(chunk) && EncodeLine(line) + t == EncodeChunk(chunk) + rest
    ensures Run(Start(c), rest).status == Complete
  {
    var data, crs;
    data, crs, rest := FindData(SizeValue(line.digits), c, t);
    chunk := Chunk(line, data, crs);
    assert EncodeLine(line) + (data + (Crs(crs) + [LF]) + rest) == EncodeChunk(chunk) + rest;
  }

  lemma FindFirstLine(c: bool, s: seq<Byte>) returns (line: SizeLine, rest: seq<Byte>)
    requires Run(Start(c), s).status == Complete
    ensures WellFormedLine(line) && s == EncodeLine(line) + rest
    ensures 0 <= SizeValue(line.digits) < SIZE_LIMIT
    ensures AfterLine(SizeValue(line.digits), c, rest).status == Complete
  {
    assert AfterDigits(c, []) == Start(c);
    line, rest := FindLine(c, [], s);
    assert [] + s == s;
  }

  lemma EncodeCons(chunk: Chunk, cs: seq<Chunk>, t: seq<Byte>)
    ensures EncodeChunks([chunk] + cs) + t == EncodeChunk(chunk) + (EncodeChunks(cs) + t)
  {
    assert ([chunk] + cs)[1..] == cs;
  }

  lemma {:induction false} FindChunks(c: bool, s: seq<Byte>) returns (cs: seq<Chunk>, last: SizeLine, rest: seq<Byte>)
    requires Run(Start(c), s).status == Complete
    ensures forall i :: 0 <= i < |cs| ==> WellFormedChunk(cs[i])
    ensures WellFormedLine(last) && SizeValue(last.digits) == 0
    ensures s == EncodeChunks(cs) + (EncodeLine(last) + rest) && AfterLine(0, c, rest).status == Complete
    decreases |s|
  {
    var line, t := FindFirstLine(c, s);
    if SizeValue(line.digits) == 0 {
      cs, last, rest := [], line, t;
    } else {
      var chunk, u := FindChunk(c, line, t);
      var tail;
      tail, last, rest := FindChunks(c, u);
      EncodeCons(chunk, tail, EncodeLine(last) + rest);
      cs := [chunk] + tail;
    }
  }

  lemma {:induction false} FindMiddle(s: seq<Byte>) returns (tail: seq<Byte>, rest: seq<Byte>)
    requires Run(Head().(phase := InTrailerMiddle), s).status == Complete
    ensures LF !in tail && s == tail + [LF] + rest && Run(Head(), rest).status == Complete
    decreases |s|
  {
    if s[0] == LF {
      tail, rest := [], s[1..];
    } else {
      tail, rest := FindMiddle(s[1..]);
      tail := [s[0]] + tail;
    }
  }

  lemma {:induction false} CrsHasNoLf(n: nat)
    ensures LF !in Crs(n)
  {
    if n > 0 {
      CrsHasNoLf(n - 1);
    }
  }

  lemma {:induction false} FindTrailer(s: seq<Byte>) returns (lines: seq<seq<Byte>>, endCrs: nat, rest: seq<Byte>)
    requires Run(Head(), s).status == Complete
    ensures forall i :: 0 <= i < |lines| ==> TrailerLine(lines[i])
    ensures s == EncodeTrailer(lines, endCrs) + rest
    decreases |s|
  {
    var n, t := FindCrs(Head(), s);
    if t[0] == LF {
      lines, endCrs, rest := [], n, t[1..];
      assert s == Crs(n) + [LF] + rest;
    } else {
      var tail, u := FindMiddle(t[1..]);
      var others;
      others, endCrs, rest := FindTrailer(u);
      var line := Crs(n) + [t[0]] + tail;
      CrsHasNoLf(n);
      assert line[n] != CR;
      lines := [line] + others;
      assert EncodeTrailer(lines, endCrs) == line + [LF] + EncodeTrailer(others, endCrs) by { assert lines[1..] == others; }
      assert s == line + [LF] + u;
    }
  }

  /** Whatever the decoder accepts is an encoding, and it returned that encoding's payload. */
  lemma OnlyEncodings(c: bool, s: seq<Byte>) returns (m: Message, rest: seq<Byte>)
    requires Decode(Start(c), s).status == Complete
    ensures WellFormed(m) && s == Encode(m, c) + rest
    ensures Decode(Start(c), s) == Outcome(Complete, Payload(m.chunks), Finished(c), |Encode(m, c)|)
  {
    var cs, last, t := FindChunks(c, s);
    if c {
      var lines, endCrs;
      lines, endCrs, rest := FindTrailer(t);
      m := Message(cs, last, lines, endCrs);
    } else {
      rest := t;
      m := Message(cs, last, [], 0);
    }
    assert s == Encode(m, c) + rest;
    RoundTrip(c, m, rest);
  }

  /** The decoder accepts exactly the grammar. */
  lemma AcceptsExactlyTheGrammar(c: bool, s: seq<Byte>)
    ensures Decode(Start(c), s).status == Complete <==>
            exists m: Message, rest: seq<Byte> :: WellFormed(m) && s == Encode(m, c) + rest
  {
    if Decode(Start(c), s).status == Complete {
      var m, rest := OnlyEncodings(c, s);
    }
    forall m: Message, rest: seq<Byte> | WellFormed(m) && s == Encode(m, c) + rest
      ensures Decode(Start(c), s).status == Complete
    {
      RoundTrip(c, m, rest);
    }
  }
}
