/** `phr_decode_chunked`: the decoder that rewrites the caller's buffer in place. */
module ChunkedDecoder {
  import opened Bytes
  import opened Chunked

  /** The first `src` octets of `s` have been turned into `out`; decoding the others finishes the job. */
  ghost predicate Progress(d0: Decoder, s: seq<Byte>, d: Decoder, out: seq<Byte>, src: nat) {
    src <= |s| && Decode(d0, s) == Decode(d, s[src..]).After(out, src)
  }

  lemma ReadOne(d0: Decoder, s: seq<Byte>, d: Decoder, out: seq<Byte>, src: nat)
    requires src < |s| && Progress(d0, s, d, out, src)
    requires Settle(d) == d && Step(d, s[src]).Go?
    ensures var step := Step(d, s[src]);
            Progress(d0, s, step.next, if step.emit then out + [s[src]] else out, src + 1)
  {
    var step := Step(d, s[src]);
    assert s[src..][1..] == s[src + 1..];
    assert Settle(step.next) == step.next;
    var r := Run(step.next, s[src + 1..]);
    if step.emit {
      assert out + ([s[src]] + r.out) == out + [s[src]] + r.out;
    } else {
      assert out + ([] + r.out) == out + r.out;
    }
  }

  lemma ReadData(d0: Decoder, s: seq<Byte>, d: Decoder, out: seq<Byte>, src: nat, n: nat)
    requires Progress(d0, s, d, out, src) && d.phase == InData
    requires n <= d.left && src + n <= |s|
    ensures Progress(d0, s, d.(left := d.left - n), out + s[src..src + n], src + n)
  {
    var next := d.(left := d.left - n);
    assert s[src..][n..] == s[src + n..] && s[src..][..n] == s[src..src + n];
    if d.left > 0 {
      RunData(d, s[src..], n);
      var r := Decode(next, s[src + n..]);
      assert out + (s[src..src + n] + r.out) == out + s[src..src + n] + r.out;
    } else {
      assert out + s[src..src + n] == out;
    }
  }

  /** `memmove` to a lower or equal address. */
  method MoveDown(buf: array<Byte>, dst: nat, src: nat, n: nat)
    requires dst <= src && src + n <= buf.Length
    modifies buf
    ensures buf[..dst + n] == old(buf[..dst]) + old(buf[src..src + n])
    ensures forall k :: src + n <= k < buf.Length ==> buf[k] == old(buf[k])
  {
    if dst == src {
      return;
    }
    ghost var was, gap := buf[..], src - dst;
    var i := 0;
    while i < n
      invariant i <= n
      invariant forall k {:trigger buf[k]} :: dst <= k < dst + i ==> buf[k] == was[k + gap]
      invariant forall k {:trigger buf[k]} :: 0 <= k < dst || src + i <= k < buf.Length ==> buf[k] == was[k]
    {
      buf[dst + i] := buf[src + i];
      i := i + 1;
    }
    assert buf[..dst] == was[..dst] && buf[dst..dst + n] == was[src..src + n];
  }

  /** The octets of `s` from `src` on are still where they were. */
  ghost predicate Unread(buf: array<Byte>, s: seq<Byte>, src: nat)
    reads buf
  {
    |s| <= buf.Length && forall k :: src <= k < |s| ==> buf[k] == s[k]
  }

  /** Where a case of the switch goes when it ends. */
  datatype Goto = FallThrough | LoopAgain | ToExit(ret: int) | ToComplete

  /** What a case of the switch establishes, having read on from `src0` to `src`. */
  ghost predicate CaseDone(d0: Decoder, s: seq<Byte>, d: Decoder, out: seq<Byte>, src0: nat, src: nat, goto: Goto) {
    && src0 <= src <= |s|
    && match goto
       case FallThrough => Progress(d0, s, d, out, src)
       case LoopAgain => Progress(d0, s, d, out, src) && src0 < src
       case ToExit(ret) =>
         || (ret == -2 && Decode(d0, s) == Outcome(Incomplete, out, d, src))
         || (ret == -1 && Decode(d0, s) == Outcome(Failed, out, d, src))
       case ToComplete => Decode(d0, s) == Outcome(Complete, out, d, src)
  }

  lemma AtEnd(d0: Decoder, s: seq<Byte>, d: Decoder, out: seq<Byte>)
    requires Progress(d0, s, d, out, |s|)
    ensures Decode(d0, s) == Outcome(Incomplete, out, Settle(d), |s|)
  {
    assert s[|s|..] == [] && out + [] == out;
  }

  lemma AtLast(d0: Decoder, s: seq<Byte>, d: Decoder, out: seq<Byte>, src: nat)
    requires src < |s| && Progress(d0, s, d, out, src) && Settle(d) == d && !Step(d, s[src]).Go?
    ensures var step := Step(d, s[src]);
            Decode(d0, s) ==
            if step.Fail? then Outcome(Failed, out, d, src) else Outcome(Complete, out, step.final, src + 1)
  {
    assert out + [] == out;
  }

  class PhrChunkedDecoder {
    var left: Size
    var consumeTrailer: bool
    var hexCount: nat
    var phase: Phase

    ghost function Value(): Decoder
      reads this
    {
      Decoder(left, consumeTrailer, hexCount, phase)
    }

    constructor (consumeTrailer: bool)
      ensures Value() == Start(consumeTrailer)
    {
      left, this.consumeTrailer, hexCount, phase := 0, consumeTrailer, 0, InSize;
    }

    method SizeCase(buf: array<Byte>, bufsz: nat, src0: nat, ghost d0: Decoder, ghost s: seq<Byte>, ghost out: seq<Byte>)
      returns (src: nat, goto: Goto)
      requires src0 <= bufsz == |s| && Unread(buf, s, src0)
      requires phase == InSize && Progress(d0, s, Value(), out, src0)
      modifies this
      ensures CaseDone(d0, s, Value(), out, src0, src, goto)
      ensures goto.ToExit? || (goto.FallThrough? && phase == InExt)
    {
      src := src0;
      while true
        invariant src0 <= src <= bufsz && phase == InSize
        invariant Progress(d0, s, Value(), out, src)
        decreases bufsz - src
      {
        if src == bufsz {
          AtEnd(d0, s, Value(), out);
          return src, ToExit(-2);
        }
        assert buf[src] == s[src];
        var v := DecodeHex(buf[src]);
        if v == -1 {
          if hexCount == 0 {
            AtLast(d0, s, Value(), out, src);
            return src, ToExit(-1);
          }
          break;
        }
        if hexCount == MAX_DIGITS {
          AtLast(d0, s, Value(), out, src);
          return src, ToExit(-1);
        }
        ReadOne(d0, s, Value(), out, src);
        left := Accumulate(left, v);
        hexCount := hexCount + 1;
        src := src + 1;
      }
      hexCount := 0;
      phase := InExt;
      goto := FallThrough;
    }

    method ExtCase(buf: array<Byte>, bufsz: nat, src0: nat, ghost d0: Decoder, ghost s: seq<Byte>, ghost out: seq<Byte>)
      returns (src: nat, goto: Goto)
      requires src0 <= bufsz == |s| && Unread(buf, s, src0)
      requires phase == InExt && Progress(d0, s, Value(), out, src0)
      modifies this`phase
      ensures CaseDone(d0, s, Value(), out, src0, src, goto)
      ensures goto.FallThrough? ==> phase == InData
    {
      src := src0;
      while true
        invariant src0 <= src <= bufsz && phase == InExt
        invariant Progress(d0, s, Value(), out, src)
        decreases bufsz - src
      {
        if src == bufsz {
          AtEnd(d0, s, Value(), out);
          return src, ToExit(-2);
        }
        assert buf[src] == s[src];
        if buf[src] == LF { break; }
        ReadOne(d0, s, Value(), out, src);
        src := src + 1;
      }
      if left == 0 {
        if consumeTrailer {
          ReadOne(d0, s, Value(), out, src);
          phase := InTrailerHead;
          return src + 1, LoopAgain;
        }
        AtLast(d0, s, Value(), out, src);
        return src + 1, ToComplete;
      }
      ReadOne(d0, s, Value(), out, src);
      phase := InData;
      return src + 1, FallThrough;
    }

    method DataCase(buf: array<Byte>, bufsz: nat, dst0: nat, src0: nat, ghost d0: Decoder, ghost s: seq<Byte>)
      returns (dst: nat, src: nat, goto: Goto)
      requires dst0 <= src0 <= bufsz == |s| && Unread(buf, s, src0)
      requires phase == InData && Progress(d0, s, Value(), buf[..dst0], src0)
      modifies this, buf
      ensures dst <= src <= bufsz && CaseDone(d0, s, Value(), buf[..dst], src0, src, goto)
      ensures forall k :: src <= k < buf.Length ==> buf[k] == old(buf[k])
      ensures goto == ToExit(-2) || (goto.FallThrough? && phase == InCrlf)
    {
      var avail := bufsz - src0;
      var n := if avail < left then avail else left;
      ReadData(d0, s, Value(), buf[..dst0], src0, n);
      assert buf[src0..src0 + n] == s[src0..src0 + n];
      MoveDown(buf, dst0, src0, n);
      dst, src := dst0 + n, src0 + n;
      left := left - n;
      if left != 0 {
        AtEnd(d0, s, Value(), buf[..dst]);
        goto := ToExit(-2);
      } else {
        phase := InCrlf;
        goto := FallThrough;
      }
    }

    method CrlfCase(buf: array<Byte>, bufsz: nat, src0: nat, ghost d0: Decoder, ghost s: seq<Byte>, ghost out: seq<Byte>)
      returns (src: nat, goto: Goto)
      requires src0 <= bufsz == |s| && Unread(buf, s, src0)
      requires phase == InCrlf && Progress(d0, s, Value(), out, src0)
      modifies this`phase
      ensures CaseDone(d0, s, Value(), out, src0, src, goto)
      ensures goto.ToExit? || goto.LoopAgain?
    {
      src := src0;
      while true
        invariant src0 <= src <= bufsz && phase == InCrlf
        invariant Progress(d0, s, Value(), out, src)
        decreases bufsz - src
      {
        if src == bufsz {
          AtEnd(d0, s, Value(), out);
          return src, ToExit(-2);
        }
        assert buf[src] == s[src];
        if buf[src] != CR { break; }
        ReadOne(d0, s, Value(), out, src);
        src := src + 1;
      }
      if buf[src] != LF {
        AtLast(d0, s, Value(), out, src);
        return src, ToExit(-1);
      }
      ReadOne(d0, s, Value(), out, src);
      phase := InSize;
      return src + 1, LoopAgain;
    }

    method TrailerHeadCase(buf: array<Byte>, bufsz: nat, src0: nat,
                           ghost d0: Decoder, ghost s: seq<Byte>, ghost out: seq<Byte>)
      returns (src: nat, goto: Goto)
      requires src0 <= bufsz == |s| && Unread(buf, s, src0)
      requires phase == InTrailerHead && Progress(d0, s, Value(), out, src0)
      modifies this`phase
      ensures CaseDone(d0, s, Value(), out, src0, src, goto)
      ensures !goto.LoopAgain? && (goto.FallThrough? ==> phase == InTrailerMiddle)
    {
      src := src0;
      while true
        invariant src0 <= src <= bufsz && phase == InTrailerHead
        invariant Progress(d0, s, Value(), out, src)
        decreases bufsz - src
      {
        if src == bufsz {
          AtEnd(d0, s, Value(), out);
          return src, ToExit(-2);
        }
        assert buf[src] == s[src];
        if buf[src] != CR { break; }
        ReadOne(d0, s, Value(), out, src);
        src := src + 1;
      }
      if buf[src] == LF {
        AtLast(d0, s, Value(), out, src);
        return src + 1, ToComplete;
      }
      ReadOne(d0, s, Value(), out, src);
      phase := InTrailerMiddle;
      return src + 1, FallThrough;
    }

    method TrailerMiddleCase(buf: array<Byte>, bufsz: nat, src0: nat,
                             ghost d0: Decoder, ghost s: seq<Byte>, ghost out: seq<Byte>)
      returns (src: nat, goto: Goto)
      requires src0 <= bufsz == |s| && Unread(buf, s, src0)
      requires phase == InTrailerMiddle && Progress(d0, s, Value(), out, src0)
      modifies this`phase
      ensures CaseDone(d0, s, Value(), out, src0, src, goto)
      ensures goto.ToExit? || goto.LoopAgain?
    {
      src := src0;
      while true
        invariant src0 <= src <= bufsz && phase == InTrailerMiddle
        invariant Progress(d0, s, Value(), out, src)
        decreases bufsz - src
      {
        if src == bufsz {
          AtEnd(d0, s, Value(), out);
          return src, ToExit(-2);
        }
        assert buf[src] == s[src];
        ReadOne(d0, s, Value(), out, src);
        if buf[src] == LF { break; }
        src := src + 1;
      }
      phase := InTrailerHead;
      return src + 1, LoopAgain;
    }

    /** One pass over the switch: the cases in order, each falling into the next. */
    method Switch(buf: array<Byte>, bufsz: nat, dst0: nat, src0: nat, ghost d0: Decoder, ghost s: seq<Byte>)
      returns (dst: nat, src: nat, goto: Goto)
      requires dst0 <= src0 <= bufsz == |s| && Unread(buf, s, src0)
      requires Progress(d0, s, Value(), buf[..dst0], src0)
      modifies this, buf
      ensures dst <= src <= bufsz && CaseDone(d0, s, Value(), buf[..dst], src0, src, goto)
      ensures forall k :: src <= k < buf.Length ==> buf[k] == old(buf[k])
      ensures !goto.FallThrough?
    {
      dst, src := dst0, src0;
      if phase == InSize {
        src, goto := SizeCase(buf, bufsz, src, d0, s, buf[..dst]);
        if !goto.FallThrough? { return; }
      }
      if phase == InExt {
        src, goto := ExtCase(buf, bufsz, src, d0, s, buf[..dst]);
        if !goto.FallThrough? { return; }
      }
      if phase == InData {
        dst, src, goto := DataCase(buf, bufsz, dst, src, d0, s);
        if !goto.FallThrough? { return; }
      }
      if phase == InCrlf {
        src, goto := CrlfCase(buf, bufsz, src, d0, s, buf[..dst]);
        return;
      }
      if phase == InTrailerHead {
        src, goto := TrailerHeadCase(buf, bufsz, src, d0, s, buf[..dst]);
        if !goto.FallThrough? { return; }
      }
      src, goto := TrailerMiddleCase(buf, bufsz, src, d0, s, buf[..dst]);
    }

    /** The `while (1)`: it ends because every pass that comes back has read something. */
    method Scan(buf: array<Byte>, bufsz: nat) returns (dst: nat, src: nat, ret: int)
      requires bufsz <= buf.Length
      modifies this, buf
      ensures dst <= src <= bufsz
      ensures forall k :: src <= k < buf.Length ==> buf[k] == old(buf[k])
      ensures Decode(old(Value()), old(buf[..bufsz])) ==
              Outcome(if ret == -2 then Incomplete else if ret == -1 then Failed else Complete, buf[..dst], Value(), src)
      ensures ret == -2 || ret == -1 || ret == bufsz - src
    {
      ghost var d0, s := Value(), buf[..bufsz];
      var goto := LoopAgain;
      dst, src := 0, 0;
      while goto.LoopAgain?
        invariant dst <= src <= bufsz && !goto.FallThrough?
        invariant if goto.LoopAgain? then Progress(d0, s, Value(), buf[..dst], src)
                  else CaseDone(d0, s, Value(), buf[..dst], 0, src, goto)
        invariant forall k :: src <= k < buf.Length ==> buf[k] == old(buf[k])
        decreases goto.LoopAgain?, bufsz - src
      {
        dst, src, goto := Switch(buf, bufsz, dst, src, d0, s);
      }
      ret := if goto.ToComplete? then bufsz - src else goto.ret;
    }

    /** Decodes `buf[..bufsz]`, leaving the payload in `buf[..size]` followed by the octets not read. */
    method DecodeChunked(buf: array<Byte>, bufsz: nat) returns (ret: int, size: nat)
      requires bufsz <= buf.Length
      modifies this, buf
      ensures var r := Decode(old(Value()), old(buf[..bufsz]));
              && Value() == r.decoder
              && size == |r.out| && size + (bufsz - r.consumed) <= bufsz
              && buf[..size] == r.out
              && buf[size..size + (bufsz - r.consumed)] == old(buf[r.consumed..bufsz])
              && buf[bufsz..] == old(buf[bufsz..])
              && ret == (match r.status case Incomplete => -2 case Failed => -1 case Complete => bufsz - r.consumed)
    {
      var src;
      size, src, ret := Scan(buf, bufsz);
      assert buf[src..bufsz] == old(buf[src..bufsz]);
      MoveDown(buf, size, src, bufsz - src);
    }
  }
}
