/** The decoder of the chunked transfer coding, as a machine that reads one octet at a time,
    and the round trips that connect it with the grammar of RFC 7230 section 4.1. */
module Chunked {
  import opened Bytes

  datatype Phase = InSize | InExt | InData | InCrlf | InTrailerHead | InTrailerMiddle

  const SIZE_LIMIT := 0x1_0000_0000_0000_0000
  const MAX_DIGITS := 16

  /** A `size_t` of 64 bits. */
  type Size = n: int | 0 <= n < SIZE_LIMIT witness 0

  /** The value of a `phr_chunked_decoder`. */
  datatype Decoder = Decoder(left: Size, consumeTrailer: bool, hexCount: nat, phase: Phase)

  /** The value of a hexadecimal digit, or -1. */
  function DecodeHex(ch: Byte): (v: int)
    ensures -1 <= v < 16
  {
    if 48 <= ch <= 57 then ch - 48
    else if 65 <= ch <= 70 then ch - 65 + 10
    else if 97 <= ch <= 102 then ch - 97 + 10
    else -1
  }

  /** One more digit of the chunk size, in 64-bit arithmetic. */
  function Accumulate(left: Size, v: int): Size {
    (left * 16 + v) % SIZE_LIMIT
  }

  predicate IsHex(ch: Byte) {
    DecodeHex(ch) != -1
  }

  /** What reading one octet does: `Fail` leaves the octet unread, `Done` reads it and stops. */
  datatype StepResult = Go(next: Decoder, emit: bool) | Fail | Done(final: Decoder)

  function StepExt(d: Decoder, ch: Byte): StepResult {
    if ch != LF then Go(d.(phase := InExt), false)
    else if d.left != 0 then Go(d.(phase := InData), false)
    else if d.consumeTrailer then Go(d.(phase := InTrailerHead), false)
    else Done(d.(phase := InExt))
  }

  function Step(d: Decoder, ch: Byte): StepResult {
    match d.phase
    case InSize =>
      var v := DecodeHex(ch);
      if v == -1 then
        if d.hexCount == 0 then Fail else StepExt(d.(hexCount := 0), ch)
      else if d.hexCount == MAX_DIGITS then Fail
      else Go(d.(left := Accumulate(d.left, v), hexCount := d.hexCount + 1), false)
    case InExt => StepExt(d, ch)
    case InData =>
      if d.left <= 1 then Go(d.(left := 0, phase := InCrlf), true) else Go(d.(left := d.left - 1), true)
    case InCrlf =>
      if ch == CR then Go(d, false)
      else if ch == LF then Go(d.(phase := InSize), false)
      else Fail
    case InTrailerHead =>
      if ch == CR then Go(d, false)
      else if ch == LF then Done(d)
      else Go(d.(phase := InTrailerMiddle), false)
    case InTrailerMiddle =>
      Go(if ch == LF then d.(phase := InTrailerHead) else d, false)
  }

  datatype Status = Incomplete | Failed | Complete

  /** The outcome of one decoding: the payload, the decoder left behind, and how many octets were read. */
  datatype Outcome = Outcome(status: Status, out: seq<Byte>, decoder: Decoder, consumed: nat) {
    function After(out0: seq<Byte>, consumed0: nat): Outcome {
      this.(out := out0 + out, consumed := consumed0 + consumed)
    }
  }

  function Run(d: Decoder, s: seq<Byte>): (r: Outcome)
    decreases |s|
    ensures r.consumed <= |s|
    ensures r.status == Incomplete ==> r.consumed == |s|
  {
    if s == [] then Outcome(Incomplete, [], d, 0) else
    match Step(d, s[0])
    case Go(d', emit) => Run(d', s[1..]).After(if emit then [s[0]] else [], 1)
    case Fail => Outcome(Failed, [], d, 0)
    case Done(d') => Outcome(Complete, [], d', 1)
  }

  /** A decoder sitting in the data of a chunk with nothing left moves on without reading an octet. */
  function Settle(d: Decoder): Decoder {
    if d.phase == InData && d.left == 0 then d.(phase := InCrlf) else d
  }

  /** One call of the decoder on the octets `s`, from any decoder state whatsoever. */
  function Decode(d: Decoder, s: seq<Byte>): (r: Outcome)
    ensures r.consumed <= |s|
    ensures r.status == Incomplete ==> r.consumed == |s|
  {
    Run(Settle(d), s)
  }

  /** The zero-filled decoder the interface asks for. */
  function Start(consumeTrailer: bool): Decoder {
    Decoder(0, consumeTrailer, 0, InSize)
  }

  // ---------- cutting the stream ----------

  lemma {:induction false} RunSplit(d: Decoder, a: seq<Byte>, b: seq<Byte>)
    ensures var r := Run(d, a);
            Run(d, a + b) == if r.status == Incomplete then Run(r.decoder, b).After(r.out, |a|) else r
    decreases |a|
  {
    if a == [] {
      assert a + b == b;
    } else {
      assert (a + b)[1..] == a[1..] + b;
      match Step(d, a[0])
      case Go(d', emit) => RunSplit(d', a[1..], b);
      case _ =>
    }
  }

  lemma {:induction false} RunSettled(d: Decoder, s: seq<Byte>)
    requires Settle(d) == d
    ensures Run(d, s).status == Incomplete ==> Settle(Run(d, s).decoder) == Run(d, s).decoder
    decreases |s|
  {
    if s != [] && Step(d, s[0]).Go? {
      RunSettled(Step(d, s[0]).next, s[1..]);
    }
  }

  /** Split invariance: decoding `a` and then `b` is decoding `a + b`, for every decoder state. */
  lemma SplitInvariance(d: Decoder, a: seq<Byte>, b: seq<Byte>)
    ensures var r := Decode(d, a);
            Decode(d, a + b) == if r.status == Incomplete then Decode(r.decoder, b).After(r.out, |a|) else r
  {
    RunSplit(Settle(d), a, b);
    RunSettled(Settle(d), a);
  }

  /** Repeated calls, one for each read, until a call does not say "incomplete". */
  function Feed(d: Decoder, pieces: seq<seq<Byte>>): Outcome
    decreases |pieces|
  {
    if pieces == [] then Outcome(Incomplete, [], d, 0) else
    var r := Decode(d, pieces[0]);
    if r.status == Incomplete then Feed(r.decoder, pieces[1..]).After(r.out, |pieces[0]|) else r
  }

  function Flatten(pieces: seq<seq<Byte>>): seq<Byte> {
    if pieces == [] then [] else pieces[0] + Flatten(pieces[1..])
  }

  /** However the stream is cut into reads, the result is that of a single call. */
  lemma {:induction false} AnyCutting(d: Decoder, pieces: seq<seq<Byte>>)
    requires pieces != [] || Settle(d) == d
    ensures Feed(d, pieces) == Decode(d, Flatten(pieces))
    decreases |pieces|
  {
    if pieces != [] {
      SplitInvariance(d, pieces[0], Flatten(pieces[1..]));
      RunSettled(Settle(d), pieces[0]);
      var r := Decode(d, pieces[0]);
      if r.status == Incomplete {
        AnyCutting(r.decoder, pieces[1..]);
      }
    }
  }

  // ---------- chunk data ----------

  /** Chunk data is copied through until the chunk or the input ends. */
  lemma {:induction false} RunDataThen(d: Decoder, data: seq<Byte>, rest: seq<Byte>)
    requires d.phase == InData && |data| <= d.left && d.left > 0
    ensures Run(d, data + rest) == Decode(d.(left := d.left - |data|), rest).After(data, |data|)
    decreases |data|
  {
    if data == [] {
      assert data + rest == rest;
    } else {
      assert (data + rest)[1..] == data[1..] + rest;
      assert [data[0]] + data[1..] == data;
      if d.left > 1 {
        RunDataThen(d.(left := d.left - 1), data[1..], rest);
        AfterAfter(Decode(d.(left := d.left - |data|), rest), data[1..], |data| - 1, [data[0]], 1);
      } else {
        assert data == [data[0]] && data[1..] + rest == rest;
      }
    }
  }

  lemma RunData(d: Decoder, s: seq<Byte>, n: nat)
    requires d.phase == InData && n <= d.left && n <= |s| && d.left > 0
    ensures Run(d, s) == Decode(d.(left := d.left - n), s[n..]).After(s[..n], n)
  {
    assert s[..n] + s[n..] == s;
    RunDataThen(d, s[..n], s[n..]);
  }

  lemma AfterAfter(r: Outcome, out1: seq<Byte>, n1: nat, out0: seq<Byte>, n0: nat)
    ensures r.After(out1, n1).After(out0, n0) == r.After(out0 + out1, n0 + n1)
  {
    assert out0 + (out1 + r.out) == out0 + out1 + r.out;
  }

  // ---------- the width of the chunk size ----------

  function Pow16(n: nat): (p: nat)
    ensures p >= 1
  {
    if n == 0 then 1 else 16 * Pow16(n - 1)
  }

  lemma Pow16Monotone(a: nat, b: nat)
    requires a <= b
    ensures Pow16(a) <= Pow16(b)
    decreases b
  {
    if a < b {
      Pow16Monotone(a, b - 1);
    }
  }

  lemma Pow16Limit()
    ensures Pow16(MAX_DIGITS) == SIZE_LIMIT
  {
    assert Pow16(4) == 0x1_0000;
    assert Pow16(8) == 0x1_0000_0000;
    assert Pow16(12) == 0x1_0000_0000_0000;
  }

  /** What every decoder that started zero-filled satisfies, between any two octets and any two calls. */
  ghost predicate Valid(d: Decoder) {
    match d.phase
    case InSize => d.hexCount <= MAX_DIGITS && d.left < Pow16(d.hexCount)
    case InExt => d.hexCount == 0
    case InData => d.hexCount == 0 && d.left > 0
    case _ => d.hexCount == 0 && d.left == 0
  }

  lemma AccumulateExact(left: Size, count: nat, v: int)
    requires count < MAX_DIGITS && left < Pow16(count) && 0 <= v < 16
    ensures Accumulate(left, v) == left * 16 + v < Pow16(count + 1)
  {
    Pow16Monotone(count + 1, MAX_DIGITS);
    Pow16Limit();
  }

  /** A size digit is added without wrapping round, and a seventeenth is refused. */
  lemma SizeNeverWraps(d: Decoder, ch: Byte)
    requires Valid(d) && d.phase == InSize && IsHex(ch)
    ensures if d.hexCount == MAX_DIGITS then Step(d, ch).Fail?
            else Step(d, ch).Go? && Step(d, ch).next.left == d.left * 16 + DecodeHex(ch) < Pow16(d.hexCount + 1)
  {
    if d.hexCount < MAX_DIGITS {
      AccumulateExact(d.left, d.hexCount, DecodeHex(ch));
    }
  }

  ghost predicate ValidResult(r: StepResult) {
    match r
    case Go(next, _) => Valid(next)
    case Done(final) => Valid(final)
    case Fail => true
  }

  lemma ValidAfterSize(d: Decoder, ch: Byte)
    requires Valid(d) && d.phase == InSize
    ensures ValidResult(Step(d, ch))
  {
    if IsHex(ch) {
      SizeNeverWraps(d, ch);
    }
  }

  lemma ValidAfterStep(d: Decoder, ch: Byte)
    requires Valid(d)
    ensures ValidResult(Step(d, ch))
  {
    if d.phase == InSize {
      ValidAfterSize(d, ch);
    } else {
      assert Pow16(0) == 1;
    }
  }

  lemma {:induction false} ValidAfterRun(d: Decoder, s: seq<Byte>)
    requires Valid(d)
    ensures Valid(Run(d, s).decoder)
    decreases |s|
  {
    if s != [] {
      ValidAfterStep(d, s[0]);
      if Step(d, s[0]).Go? {
        ValidAfterRun(Step(d, s[0]).next, s[1..]);
      }
    }
  }

  /** A run of more than sixteen size digits fails at the seventeenth, wherever the reads are cut. */
  lemma {:induction false} SeventeenthDigitRejected(d: Decoder, digits: seq<Byte>, rest: seq<Byte>)
    requires Valid(d) && d.phase == InSize
    requires forall i :: 0 <= i < |digits| ==> IsHex(digits[i])
    requires d.hexCount + |digits| > MAX_DIGITS
    ensures Run(d, digits + rest).status == Failed
    ensures Run(d, digits + rest).consumed == MAX_DIGITS - d.hexCount && Run(d, digits + rest).out == []
    decreases |digits|
  {
    var s := digits + rest;
    assert IsHex(digits[0]) && s[0] == digits[0];
    SizeNeverWraps(d, s[0]);
    ValidAfterStep(d, s[0]);
    if d.hexCount < MAX_DIGITS {
      assert s[1..] == digits[1..] + rest;
      SeventeenthDigitRejected(Step(d, s[0]).next, digits[1..], rest);
    }
  }
}
