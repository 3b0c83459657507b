/** The incremental pre-check: skipping the parse while no blank line has come loses nothing, for requests and
    responses; for bare header blocks it can, in exactly one situation. */
module HttpPreCheck {
  import opened Bytes
  import opened HttpHead
  import opened HttpPrefix
  import opened HttpScans

  /** Between `p` and `n` every carriage return is followed by a line feed. */
  ghost predicate NoStray(s: seq<Byte>, p: nat, n: nat) {
    n <= |s| && forall i :: p <= i < n && s[i] == CR ==> i + 1 < n && s[i + 1] == LF
  }

  lemma ToEolNoStray(s: seq<Byte>, p: nat)
    requires ToEol(s, p).Ok?
    ensures NoStray(s, p, ToEol(s, p).next)
  {
    ValuePassed(s, p);
  }

  lemma HeaderLineNoStray(s: seq<Byte>, p: nat, first: bool)
    requires HeaderLine(s, p, first).Ok?
    ensures NoStray(s, p, HeaderLine(s, p, first).next)
  {
    if !first && IsBlank(s[p]) {
      ToEolNoStray(s, p);
    } else {
      TokenPassed(s, p, COLON);
      var q := Token(s, p, COLON).next + 1;
      BlanksPassed(s, q);
      ToEolNoStray(s, SkipBlanks(s, q).next);
    }
  }

  /** A blank line at `b`, after a line feed, that ends at `n`. */
  ghost predicate BlankLine(s: seq<Byte>, b: nat, n: nat) {
    1 <= b < |s| && s[b - 1] == LF && LineBreak(s, b) == Ok((), n)
  }

  lemma OneHeaderOn(s: seq<Byte>, p: nat, n: nat, max: nat)
    requires Headers(s, p, n, max).Ok? && s[p] != CR && s[p] != LF
    ensures var h := HeaderLine(s, p, n == 0);
            h.Ok? && Headers(s, h.next, n + 1, max).Ok? && Headers(s, h.next, n + 1, max).next == Headers(s, p, n, max).next
  {
  }

  /** Headers that follow a line break end with a blank line. */
  lemma {:induction false} HeadersEnd(s: seq<Byte>, p: nat, n: nat, max: nat) returns (b: nat)
    requires 1 <= p <= |s| && s[p - 1] == LF && Headers(s, p, n, max).Ok?
    ensures p <= b && BlankLine(s, b, Headers(s, p, n, max).next)
    ensures NoStray(s, p, Headers(s, p, n, max).next)
    decreases |s| - p
  {
    if s[p] == CR || s[p] == LF {
      b := p;
    } else {
      OneHeaderOn(s, p, n, max);
      HeaderLineNoStray(s, p, n == 0);
      b := HeadersEnd(s, HeaderLine(s, p, n == 0).next, n + 1, max);
    }
  }

  lemma VersionNoCr(s: seq<Byte>, p: nat)
    requires Version(s, p).Ok?
    ensures forall i :: p <= i < p + 8 ==> s[i] != CR
  {
    assert s[p..p + 7] == [72, 84, 84, 80, 47, 49, 46];
    forall i | p <= i < p + 7
      ensures s[i] != CR
    {
      assert s[i] == s[p..p + 7][i - p];
    }
  }

  lemma AfterTargetNoStray(s: seq<Byte>, p: nat, method_: Slice, path: Slice)
    requires AfterTarget(s, p, method_, path).Ok?
    ensures NoStray(s, p, AfterTarget(s, p, method_, path).next)
  {
    VersionNoCr(s, p);
  }

  lemma AfterMethodNoStray(s: seq<Byte>, p: nat, method_: Slice)
    requires method_.Slice? && AfterMethod(s, p, method_).Ok?
    ensures NoStray(s, p, AfterMethod(s, p, method_).next)
  {
    TargetPassed(s, p);
    var q := Target(s, p).next + 1;
    SpacesPassed(s, q);
    AfterTargetNoStray(s, SkipSpaces(s, q).next, method_, Target(s, p).value);
  }

  lemma RequestLineNoStray(s: seq<Byte>, p: nat)
    requires RequestLine(s, p).Ok?
    ensures NoStray(s, p, RequestLine(s, p).next)
  {
    TokenPassed(s, p, SP);
    var q := Token(s, p, SP).next + 1;
    SpacesPassed(s, q);
    AfterMethodNoStray(s, SkipSpaces(s, q).next, Token(s, p, SP).value);
  }

  lemma StatusLineNoStray(s: seq<Byte>)
    requires StatusLine(s, 0).Ok?
    ensures NoStray(s, 0, StatusLine(s, 0).next)
  {
    VersionNoCr(s, 0);
    var p1 := Version(s, 0).next + 1;
    SpacesPassed(s, p1);
    var p2 := SkipSpaces(s, p1).next;
    ToEolNoStray(s, StatusCode(s, p2).next);
  }

  /** The pre-check, started at `p` with `count` line breaks just read, finds the blank line at `b` or one before. */
  lemma {:induction false} CompleteFinds(s: seq<Byte>, p: nat, count: nat, b: nat, n: nat)
    requires p <= b && count <= 1 && (p == b ==> count == 1)
    requires BlankLine(s, b, n) && NoStray(s, p, n)
    ensures Complete(s, p, count).Ok?
    decreases |s| - p
  {
    if p < b {
      if s[p] != CR && s[p] != LF {
        CompleteFinds(s, p + 1, 0, b, n);
      } else if count == 0 {
        CompleteFinds(s, LineBreak(s, p).next, 1, b, n);
      }
    }
  }

  /** A carriage return before something else than a line feed. */
  ghost predicate Stray(s: seq<Byte>, i: nat) {
    i + 1 < |s| && s[i] == CR && s[i + 1] != LF
  }

  /** No blank line from `from` on ends at `n` or before. */
  ghost predicate NoneBefore(s: seq<Byte>, from: nat, n: nat) {
    forall b, end :: from <= b && BlankLine(s, b, end) ==> n < end
  }

  /** A blank line from `from` on ends at `n`, the first to do so, and nothing from `p` to there is stray. */
  ghost predicate FirstBlank(s: seq<Byte>, p: nat, from: nat, n: nat) {
    && NoStray(s, p, n) && (exists b :: from <= b && BlankLine(s, b, n))
    && forall b, end :: from <= b && BlankLine(s, b, end) ==> n <= end
  }

  /** A stray carriage return comes before any blank line. */
  ghost predicate StrayFirst(s: seq<Byte>, p: nat, from: nat) {
    exists i :: p <= i && Stray(s, i) && NoneBefore(s, from, i)
  }

  /** There is neither. */
  ghost predicate Neither(s: seq<Byte>, p: nat, from: nat) {
    (forall i :: p <= i ==> !Stray(s, i)) && (forall b, end :: from <= b ==> !BlankLine(s, b, end))
  }

  /** What a pre-check at `p` answers; the blank line comes behind a line break that it sees, or has just seen. */
  ghost predicate Answers(s: seq<Byte>, p: nat, from: nat, r: Res<()>) {
    match r
    case Ok(_, n) => FirstBlank(s, p, from, n)
    case Bad => StrayFirst(s, p, from)
    case Short => Neither(s, p, from)
  }

  lemma {:induction false} CompleteAnswers(s: seq<Byte>, p: nat, count: nat)
    requires count <= 1 && (count == 1 ==> 1 <= p <= |s| && s[p - 1] == LF)
    ensures Answers(s, p, if count == 1 then p else p + 1, Complete(s, p, count))
    decreases |s| - p
  {
    if p < |s| {
      if s[p] != CR && s[p] != LF {
        CompleteAnswers(s, p + 1, 0);
        SkipOther(s, p, if count == 1 then p else p + 1, Complete(s, p + 1, 0));
      } else if LineBreak(s, p).Ok? {
        var q := LineBreak(s, p).next;
        if count == 1 {
          assert BlankLine(s, p, q);
        } else {
          CompleteAnswers(s, q, 1);
          SkipBreak(s, p, q, Complete(s, q, 1));
        }
      } else if LineBreak(s, p).Bad? {
        assert Stray(s, p);
      }
    }
  }

  /** What a scan says that starts at `q` is true from `p` on, if nothing comes between. */
  lemma AnswersEarlier(s: seq<Byte>, p: nat, q: nat, fromQ: nat, fromP: nat, r: Res<()>)
    requires p <= q && fromP <= fromQ && Answers(s, q, fromQ, r)
    requires NoStray(s, p, q)
    requires forall b, end :: fromP <= b < fromQ ==> !BlankLine(s, b, end)
    ensures Answers(s, p, fromP, r)
  {
    if r.Ok? {
      var b :| fromQ <= b && BlankLine(s, b, r.next);
    } else if r.Bad? {
      var i :| q <= i && Stray(s, i) && NoneBefore(s, fromQ, i);
    }
  }

  lemma SkipOther(s: seq<Byte>, p: nat, from: nat, r: Res<()>)
    requires p < |s| && s[p] != CR && s[p] != LF && from in {p, p + 1} && Answers(s, p + 1, p + 2, r)
    ensures Answers(s, p, from, r)
  {
    AnswersEarlier(s, p, p + 1, p + 2, from, r);
  }

  lemma SkipBreak(s: seq<Byte>, p: nat, q: nat, r: Res<()>)
    requires LineBreak(s, p) == Ok((), q) && Answers(s, q, q, r)
    ensures Answers(s, p, p + 1, r)
  {
    AnswersEarlier(s, p, q, q, p + 1, r);
  }

  /** Where the pre-check starts. */
  function ScanStart(lastLen: nat): nat {
    if lastLen < 3 then 0 else lastLen - 3
  }

  /** The pre-check passes exactly if a blank line follows a line feed that it sees, with no stray carriage return before;
      it fails exactly if a stray carriage return comes first, and asks for more exactly if there is neither. */
  lemma PreCheckExactly(s: seq<Byte>, lastLen: nat)
    ensures var start, from, r := ScanStart(lastLen), ScanStart(lastLen) + 1, PreCheck(s, lastLen);
            && (r.Ok? <==> exists n :: FirstBlank(s, start, from, n))
            && (r.Ok? ==> FirstBlank(s, start, from, r.next))
            && (r.Bad? <==> StrayFirst(s, start, from))
            && (r.Short? <==> Neither(s, start, from))
  {
    var start, from := ScanStart(lastLen), ScanStart(lastLen) + 1;
    CompleteAnswers(s, start, 0);
    forall n | FirstBlank(s, start, from, n)
      ensures !StrayFirst(s, start, from) && !Neither(s, start, from)
    {
      var b :| from <= b && BlankLine(s, b, n);
    }
  }

  /** A call with an earlier one fails at once on a stray carriage return, asks for more while there is no blank line, and
      else answers what the parse answers. */
  lemma CheckedExactly<T(!new)>(s: seq<Byte>, lastLen: nat, r: Res<T>)
    requires lastLen > 0
    ensures var start, from, answer := ScanStart(lastLen), ScanStart(lastLen) + 1, Checked(s, lastLen, r);
            && (StrayFirst(s, start, from) ==> answer.Bad?)
            && (Neither(s, start, from) ==> answer.Short?)
            && (!StrayFirst(s, start, from) && !Neither(s, start, from) ==> answer == r)
  {
    PreCheckExactly(s, lastLen);
  }

  /** A parse that needed more than the first `lastLen` octets passes the pre-check. */
  lemma PreCheckFinds(s: seq<Byte>, lastLen: nat, b: nat, n: nat)
    requires BlankLine(s, b, n) && NoStray(s, 0, n) && lastLen < n
    ensures PreCheck(s, lastLen).Ok?
  {
    CompleteFinds(s, if lastLen < 3 then 0 else lastLen - 3, 0, b, n);
  }

  lemma RequestEnd(s: seq<Byte>, max: nat) returns (b: nat)
    requires ParseRequest(s, max).Ok?
    ensures var n := ParseRequest(s, max).next; BlankLine(s, b, n) && NoStray(s, 0, n)
  {
    var p := LeadingBreak(s).next;
    RequestLineNoStray(s, p);
    b := HeadersEnd(s, RequestLine(s, p).next, 0, max);
  }

  lemma ResponseEnd(s: seq<Byte>, max: nat) returns (b: nat)
    requires ParseResponse(s, max).Ok?
    ensures var n := ParseResponse(s, max).next; BlankLine(s, b, n) && NoStray(s, 0, n)
  {
    StatusLineNoStray(s);
    b := HeadersEnd(s, StatusLine(s, 0).next, 0, max);
  }

  /** For requests: if what was there at the last call was incomplete, parsing what is there now succeeds with the
      pre-check exactly when it succeeds without, with the same result. */
  lemma RequestPreCheck(a: seq<Byte>, s: seq<Byte>, max: nat)
    requires a <= s && a != [] && ParseRequest(a, max).Short?
    ensures var fast, slow := Checked(s, |a|, ParseRequest(s, max)), ParseRequest(s, max);
            (fast.Ok? <==> slow.Ok?) && (slow.Ok? ==> fast == slow)
  {
    if ParseRequest(s, max).Ok? {
      RequestSettles(a, s, max);
      var b := RequestEnd(s, max);
      PreCheckFinds(s, |a|, b, ParseRequest(s, max).next);
    }
  }

  lemma ResponsePreCheck(a: seq<Byte>, s: seq<Byte>, max: nat)
    requires a <= s && a != [] && ParseResponse(a, max).Short?
    ensures var fast, slow := Checked(s, |a|, ParseResponse(s, max)), ParseResponse(s, max);
            (fast.Ok? <==> slow.Ok?) && (slow.Ok? ==> fast == slow)
  {
    if ParseResponse(s, max).Ok? {
      ResponseSettles(a, s, max);
      var b := ResponseEnd(s, max);
      PreCheckFinds(s, |a|, b, ParseResponse(s, max).next);
    }
  }

  // ---------- bare header blocks ----------

  /** Whether the pre-check loses no success on `s`, `a` of which was there at the last call. */
  ghost predicate HeadersAgree(a: seq<Byte>, s: seq<Byte>, max: nat) {
    var fast, slow := Checked(s, |a|, Headers(s, 0, 0, max)), Headers(s, 0, 0, max);
    (fast.Ok? <==> slow.Ok?) && (slow.Ok? ==> fast == slow)
  }

  lemma BlockEnd(s: seq<Byte>, max: nat) returns (b: nat)
    requires Headers(s, 0, 0, max).Ok? && s[0] != CR && s[0] != LF
    ensures var n := Headers(s, 0, 0, max).next; BlankLine(s, b, n) && NoStray(s, 0, n)
  {
    OneHeaderOn(s, 0, 0, max);
    HeaderLineNoStray(s, 0, true);
    b := HeadersEnd(s, HeaderLine(s, 0, true).next, 1, max);
  }

  lemma HeadersPreCheck(a: seq<Byte>, s: seq<Byte>, max: nat)
    requires a <= s && a != [] && a != [CR] && Headers(a, 0, 0, max).Short?
    ensures HeadersAgree(a, s, max)
  {
    if Headers(s, 0, 0, max).Ok? {
      HeadersSettle(a, s, 0, 0, max);
      assert |a| == 1 ==> a == [a[0]];
      var b := BlockEnd(s, max);
      PreCheckFinds(s, |a|, b, Headers(s, 0, 0, max).next);
    }
  }

  /** For bare header blocks the pre-check loses nothing, whatever is still to come, exactly when the last call did not
      stop after a lone carriage return: there the block may be just a blank line, which is one line break, not two. */
  lemma HeadersPreCheckExactly(a: seq<Byte>, max: nat)
    requires a != [] && Headers(a, 0, 0, max).Short?
    ensures (forall s :: a <= s ==> HeadersAgree(a, s, max)) <==> a != [CR]
  {
    if a != [CR] {
      forall s | a <= s
        ensures HeadersAgree(a, s, max)
      {
        HeadersPreCheck(a, s, max);
      }
    } else {
      var s: seq<Byte> := [CR, LF];
      assert Headers(s, 0, 0, max) == Ok([], 2);
      assert Complete(s, 2, 1).Short? && PreCheck(s, 1).Short?;
      assert a <= s && !HeadersAgree(a, s, max);
    }
  }

  // ---------- a whole message, read in pieces ----------

  /** The lengths of the input at the calls. */
  ghost predicate Cuts(s: seq<Byte>, ends: seq<nat>) {
    forall i, j :: 0 <= i <= j < |ends| ==> ends[i] <= ends[j] <= |s|
  }

  /** How much was there at the call before. */
  function LastLen(ends: seq<nat>, k: nat): nat
    requires k < |ends|
  {
    if k == 0 then 0 else ends[k - 1]
  }

  /** The answers of the call on the first `ends[k]` octets. */
  function RequestAnswer(s: seq<Byte>, ends: seq<nat>, k: nat, max: nat): Res<Request>
    requires k < |ends| && ends[k] <= |s|
  {
    Checked(s[..ends[k]], LastLen(ends, k), ParseRequest(s[..ends[k]], max))
  }

  function ResponseAnswer(s: seq<Byte>, ends: seq<nat>, k: nat, max: nat): Res<Response>
    requires k < |ends| && ends[k] <= |s|
  {
    Checked(s[..ends[k]], LastLen(ends, k), ParseResponse(s[..ends[k]], max))
  }

  function HeadersAnswer(s: seq<Byte>, ends: seq<nat>, k: nat, max: nat): Res<seq<Header>>
    requires k < |ends| && ends[k] <= |s|
  {
    Checked(s[..ends[k]], LastLen(ends, k), Headers(s[..ends[k]], 0, 0, max))
  }

  /** While a good message is not all there, the pre-check meets no stray carriage return. */
  lemma {:induction false} CompleteNotBad(s: seq<Byte>, p: nat, count: nat, e: nat, n: nat)
    requires NoStray(s, 0, n) && e <= n
    ensures !Complete(s[..e], p, count).Bad?
    decreases e - p
  {
    if p < e {
      if s[p] != CR && s[p] != LF {
        CompleteNotBad(s, p + 1, 0, e, n);
      } else if LineBreak(s[..e], p).Ok? {
        CompleteNotBad(s, LineBreak(s[..e], p).next, count + 1, e, n);
      }
    }
  }

  /** One call: "incomplete" as long as the blank line is not all there, then the answer of the plain parse. */
  lemma OneCall<T>(s: seq<Byte>, e: nat, lastLen: nat, r: Res<T>, b: nat, n: nat)
    requires BlankLine(s, b, n) && NoStray(s, 0, n) && lastLen < n && e <= |s| && (e < n ==> r.Short?)
    ensures Checked(s[..e], lastLen, r) == r
  {
    var a := s[..e];
    if e < n {
      CompleteNotBad(s, if lastLen < 3 then 0 else lastLen - 3, 0, e, n);
    } else {
      assert BlankLine(a, b, n) && NoStray(a, 0, n);
      PreCheckFinds(a, lastLen, b, n);
    }
  }

  /** Wherever a request is cut into pieces: as long as every call so far was told "incomplete", the next one succeeds
      exactly when a parse of all its input does, with the same result; and a good request is reported as soon as all of
      it is there, and as incomplete before. */
  lemma {:induction false} RequestInPieces(s: seq<Byte>, ends: seq<nat>, k: nat, max: nat)
    requires Cuts(s, ends) && k < |ends|
    requires forall j :: 0 <= j < k ==> RequestAnswer(s, ends, j, max).Short?
    ensures var fast, slow := RequestAnswer(s, ends, k, max), ParseRequest(s[..ends[k]], max);
            (fast.Ok? <==> slow.Ok?) && (slow.Ok? ==> fast == slow)
    ensures var r := ParseRequest(s, max);
            r.Ok? ==> RequestAnswer(s, ends, k, max) == if ends[k] < r.next then Short else r
  {
    var r := ParseRequest(s, max);
    if r.Ok? {
      if k > 0 {
        RequestInPieces(s, ends, k - 1, max);
      }
      RequestFraming(s, max, ends[k]);
      var b := RequestEnd(s, max);
      OneCall(s, ends[k], LastLen(ends, k), ParseRequest(s[..ends[k]], max), b, r.next);
    } else {
      RequestSettles(s[..ends[k]], s, max);
    }
  }

  lemma {:induction false} ResponseInPieces(s: seq<Byte>, ends: seq<nat>, k: nat, max: nat)
    requires Cuts(s, ends) && k < |ends|
    requires forall j :: 0 <= j < k ==> ResponseAnswer(s, ends, j, max).Short?
    ensures var fast, slow := ResponseAnswer(s, ends, k, max), ParseResponse(s[..ends[k]], max);
            (fast.Ok? <==> slow.Ok?) && (slow.Ok? ==> fast == slow)
    ensures var r := ParseResponse(s, max);
            r.Ok? ==> ResponseAnswer(s, ends, k, max) == if ends[k] < r.next then Short else r
  {
    var r := ParseResponse(s, max);
    if r.Ok? {
      if k > 0 {
        ResponseInPieces(s, ends, k - 1, max);
      }
      ResponseFraming(s, max, ends[k]);
      var b := ResponseEnd(s, max);
      OneCall(s, ends[k], LastLen(ends, k), ParseResponse(s[..ends[k]], max), b, r.next);
    } else {
      ResponseSettles(s[..ends[k]], s, max);
    }
  }

  /** The same for bare header blocks, when no call was made on a lone carriage return. */
  lemma {:induction false} HeadersInPieces(s: seq<Byte>, ends: seq<nat>, k: nat, max: nat)
    requires Cuts(s, ends) && k < |ends| && forall j :: 0 <= j < k ==> s[..ends[j]] != [CR]
    requires forall j :: 0 <= j < k ==> HeadersAnswer(s, ends, j, max).Short?
    ensures var fast, slow := HeadersAnswer(s, ends, k, max), Headers(s[..ends[k]], 0, 0, max);
            (fast.Ok? <==> slow.Ok?) && (slow.Ok? ==> fast == slow)
    ensures var r := Headers(s, 0, 0, max);
            r.Ok? ==> HeadersAnswer(s, ends, k, max) == if ends[k] < r.next then Short else r
  {
    var r := Headers(s, 0, 0, max);
    HeadersSettle(s[..ends[k]], s, 0, 0, max);
    if r.Ok? {
      if k > 0 {
        HeadersInPieces(s, ends, k - 1, max);
        assert ends[k - 1] == 1 ==> s[..1] == [s[0]];
      }
      if s[0] != CR && s[0] != LF {
        var b := BlockEnd(s, max);
        OneCall(s, ends[k], LastLen(ends, k), Headers(s[..ends[k]], 0, 0, max), b, r.next);
      }
    }
  }
}
