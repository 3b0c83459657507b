/** The sizes of chunks as numbers printed in base sixteen, and what the two answers other than success mean: "incomplete"
    that the message can still be completed, the error that it cannot. */
module ChunkedSizes {
  import opened Bytes
  import opened Chunked
  import opened ChunkedGrammar
  import opened Division

  // ---------- printed sizes ----------

  /** The character that writes a digit: 0 to 9, and A to F or a to f. */
  function HexChar(v: nat, upper: bool): Byte
    requires v < 16
  {
    if v < 10 then 48 + v else if upper then 55 + v else 87 + v
  }

  /** `n` in as many digits as there are entries in `cases`, which say how letters are written. */
  function PrintHex(n: nat, cases: seq<bool>): (digits: seq<Byte>)
    ensures |digits| == |cases|
  {
    if cases == [] then []
    else PrintHex(n / 16, cases[..|cases| - 1]) + [HexChar(n % 16, cases[|cases| - 1])]
  }

  /** An octet is a digit exactly if it writes one, and then it is read as what it writes. */
  lemma DigitsRead(ch: Byte)
    ensures IsHex(ch) <==> 48 <= ch <= 57 || 65 <= ch <= 70 || 97 <= ch <= 102
    ensures forall v: nat, upper: bool :: v < 16 && HexChar(v, upper) == ch ==> DecodeHex(ch) == v
    ensures IsHex(ch) ==> DecodeHex(ch) >= 0 && exists upper: bool :: HexChar(DecodeHex(ch), upper) == ch
  {
    if IsHex(ch) {
      assert HexChar(DecodeHex(ch), ch < 97) == ch;
    }
  }

  /** The printed form of a number is read as that number. */
  lemma {:induction false} PrintedSize(n: nat, cases: seq<bool>)
    requires n < Pow16(|cases|)
    ensures AllHex(PrintHex(n, cases)) && SizeValue(PrintHex(n, cases)) == n
  {
    if cases != [] {
      var rest, last := PrintHex(n / 16, cases[..|cases| - 1]), HexChar(n % 16, cases[|cases| - 1]);
      PrintedSize(n / 16, cases[..|cases| - 1]);
      DigitsRead(last);
      assert PrintHex(n, cases)[..|cases| - 1] == rest;
    }
  }

  /** And whatever is read as digits is the printed form of a number. */
  lemma {:induction false} SizeIsPrinted(digits: seq<Byte>) returns (cases: seq<bool>)
    requires AllHex(digits)
    ensures 0 <= SizeValue(digits) < Pow16(|digits|) && digits == PrintHex(SizeValue(digits), cases)
  {
    SizeValueBound(digits);
    if digits == [] {
      cases := [];
    } else {
      var k := |digits| - 1;
      var rest, last := digits[..k], digits[k];
      cases := SizeIsPrinted(rest);
      DigitsRead(last);
      var upper: bool :| HexChar(DecodeHex(last), upper) == last;
      DivUnique(16, SizeValue(digits), SizeValue(rest), DecodeHex(last));
      cases := cases + [upper];
      assert cases[..k] == cases[..|cases| - 1];
      assert digits == rest + [last];
    }
  }

  /** The line that announces `n` octets: at most sixteen digits, and an extension that does not begin with one. */
  ghost predicate Announces(line: SizeLine, n: nat) {
    && 1 <= |line.digits| <= 16 && n < Pow16(|line.digits|)
    && (exists cases: seq<bool> :: line.digits == PrintHex(n, cases))
    && 10 !in line.ext
    && (line.ext != [] ==> forall v: nat, upper: bool :: v < 16 ==> line.ext[0] != HexChar(v, upper))
  }

  /** The size lines of the grammar are the lines that announce a number. */
  lemma LinesAnnounce(line: SizeLine, n: nat)
    ensures WellFormedLine(line) && SizeValue(line.digits) == n <==> Announces(line, n)
  {
    if line.ext != [] {
      DigitsRead(line.ext[0]);
    }
    if WellFormedLine(line) && SizeValue(line.digits) == n {
      var cases := SizeIsPrinted(line.digits);
    }
    if Announces(line, n) {
      var cases :| line.digits == PrintHex(n, cases);
      PrintedSize(n, cases);
    }
  }

  /** A size line leaves the decoder with just the number it announces. */
  lemma AnnouncedSize(c: bool, line: SizeLine, n: nat, s: seq<Byte>)
    requires Announces(line, n)
    ensures n < SIZE_LIMIT
    ensures Run(Start(c), EncodeLine(line) + s) == AfterLine(n, c, s).After([], |EncodeLine(line)|)
  {
    LinesAnnounce(line, n);
    RunLine(c, line, s);
  }

  // ---------- what the answers mean ----------

  /** The shortest end of a message. */
  function LastChunk(c: bool): seq<Byte> {
    if c then [48, LF, LF] else [48, LF]
  }

  lemma EndsHere(c: bool)
    ensures Run(Start(c), LastChunk(c)).status == Complete
  {
    var s := LastChunk(c);
    var d := Start(c).(hexCount := 1);
    assert Step(Start(c), 48) == Go(d, false);
    if c {
      assert s[1..] == [LF, LF] && s[1..][1..] == [LF];
      assert Step(d, LF) == Go(Head(), false);
      assert Run(Head(), [LF]).status == Complete;
    } else {
      assert s[1..] == [LF];
    }
  }

  function Zeros(n: nat): (s: seq<Byte>)
    ensures |s| == n
  {
    seq(n, _ => 0)
  }

  /** The data of a chunk, its line end, and the end of the message. */
  function RestOfChunk(left: nat, c: bool): seq<Byte> {
    Zeros(left) + ([LF] + LastChunk(c))
  }

  lemma DataEnds(left: Size, c: bool)
    requires left > 0
    ensures Run(Decoder(left, c, 0, InData), RestOfChunk(left, c)).status == Complete
  {
    RunDataThen(Decoder(left, c, 0, InData), Zeros(left), [LF] + LastChunk(c));
    CrlfEnds(c);
  }

  lemma CrlfEnds(c: bool)
    ensures Run(Decoder(0, c, 0, InCrlf), [LF] + LastChunk(c)).status == Complete
  {
    assert ([LF] + LastChunk(c))[1..] == LastChunk(c);
    EndsHere(c);
  }

  /** What completes a size line that has come to its extension. */
  function RestOfLine(left: nat, c: bool): seq<Byte> {
    [LF] + if left > 0 then RestOfChunk(left, c) else if c then [LF] else []
  }

  lemma LineEnds(left: Size, c: bool)
    ensures Run(Decoder(left, c, 0, InExt), RestOfLine(left, c)).status == Complete
  {
    var s := RestOfLine(left, c);
    if left > 0 {
      assert s[1..] == RestOfChunk(left, c);
      DataEnds(left, c);
    } else if c {
      assert s[1..] == [LF];
      assert Run(Head(), [LF]).status == Complete;
    }
  }

  /** From every state that a message can bring the decoder to, something completes it. */
  lemma CanBeCompleted(d: Decoder) returns (more: seq<Byte>)
    requires Valid(d)
    ensures Run(d, more).status == Complete
  {
    var c := d.consumeTrailer;
    match d.phase {
      case InSize =>
        if d.hexCount == 0 {
          assert d == Start(c);
          EndsHere(c);
          more := LastChunk(c);
        } else {
          LineEnds(d.left, c);
          more := RestOfLine(d.left, c);
          assert Step(d, LF) == Step(Decoder(d.left, c, 0, InExt), LF);
        }
      case InExt =>
        LineEnds(d.left, c);
        more := RestOfLine(d.left, c);
      case InData =>
        DataEnds(d.left, c);
        more := RestOfChunk(d.left, c);
      case InCrlf =>
        CrlfEnds(c);
        more := [LF] + LastChunk(c);
      case InTrailerHead =>
        more := [LF];
      case InTrailerMiddle =>
        more := [LF, LF];
        assert more[1..] == [LF];
    }
  }

  /** The answers are what they say: the error exactly if no continuation is a message, and "incomplete" exactly if there
      is none yet and some continuation is one. */
  lemma AnswersExactly(c: bool, s: seq<Byte>)
    ensures Decode(Start(c), s).status == Failed <==> forall more: seq<Byte> :: Decode(Start(c), s + more).status != Complete
    ensures Decode(Start(c), s).status == Incomplete <==>
            Decode(Start(c), s).status != Complete && exists more: seq<Byte> :: Decode(Start(c), s + more).status == Complete
  {
    var r := Run(Start(c), s);
    assert s + [] == s;
    if r.status == Incomplete {
      ValidAfterRun(Start(c), s);
      var more := CanBeCompleted(r.decoder);
      RunSplit(Start(c), s, more);
      assert Decode(Start(c), s + more).status == Complete;
    } else {
      forall more: seq<Byte>
        ensures Run(Start(c), s + more).status == r.status
      {
        RunSplit(Start(c), s, more);
      }
      if r.status == Complete {
        assert Decode(Start(c), s + []).status == Complete;
      }
    }
  }
}
