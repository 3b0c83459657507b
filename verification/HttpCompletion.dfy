/** What the parser's answers mean for what is still to come: "incomplete" that the head can still be completed, the
    error that it cannot, except in two windows each in which the parser has not looked yet. */
module HttpCompletion {
  import opened Bytes
  import opened HttpGrammar
  import opened HttpHead
  import opened HttpPreCheck
  import opened HttpPrefix
  import opened HttpResponseGrammar

  // ---------- scans that stopped short ----------

  // A scan that ran into the end of `a` goes on from there when `a` has grown into `s`.

  lemma {:induction false} TokenResumes(a: seq<Byte>, s: seq<Byte>, p: nat, stop: Byte)
    requires a <= s && p <= |a| && TokenEnd(a, p, stop).Short?
    ensures TokenEnd(s, p, stop) == TokenEnd(s, |a|, stop)
    decreases |a| - p
  {
    if p < |a| {
      TokenResumes(a, s, p + 1, stop);
    }
  }

  lemma {:induction false} TargetResumes(a: seq<Byte>, s: seq<Byte>, p: nat)
    requires a <= s && p <= |a| && TargetEnd(a, p).Short?
    ensures TargetEnd(s, p) == TargetEnd(s, |a|)
    decreases |a| - p
  {
    if p < |a| {
      TargetResumes(a, s, p + 1);
    }
  }

  lemma {:induction false} ValueResumes(a: seq<Byte>, s: seq<Byte>, p: nat)
    requires a <= s && p <= |a| && FindCtl(a, p).Short?
    ensures FindCtl(s, p) == FindCtl(s, |a|)
    decreases |a| - p
  {
    if p < |a| {
      ValueResumes(a, s, p + 1);
    }
  }

  lemma {:induction false} SpacesResume(a: seq<Byte>, s: seq<Byte>, p: nat)
    requires a <= s && p <= |a| && SkipSpaces(a, p).Short?
    ensures SkipSpaces(s, p) == SkipSpaces(s, |a|)
    decreases |a| - p
  {
    if p < |a| {
      SpacesResume(a, s, p + 1);
    }
  }

  lemma {:induction false} BlanksResume(a: seq<Byte>, s: seq<Byte>, p: nat)
    requires a <= s && p <= |a| && SkipBlanks(a, p).Short?
    ensures SkipBlanks(s, p) == SkipBlanks(s, |a|)
    decreases |a| - p
  {
    if p < |a| {
      BlanksResume(a, s, p + 1);
    }
  }

  // ---------- headers ----------

  /** A parser that stopped short has been completed by what makes `a` into `s`. */
  predicate Completes<T>(r: Res<T>, s: seq<Byte>) {
    r.Ok? && r.next == |s|
  }

  /** A line that has come to its end only lacks the line feed. */
  lemma EolCompleted(a: seq<Byte>, p: nat)
    requires p <= |a| && ToEol(a, p).Short?
    ensures Completes(ToEol(a + [LF], p), a + [LF])
  {
    var s := a + [LF];
    if FindCtl(a, p).Short? {
      ValueResumes(a, s, p);
    } else {
      FindCtlGrows(a, s, p);
    }
  }

  lemma ValueCompleted(a: seq<Byte>, p: nat, name: Slice)
    requires p <= |a| && Value(a, p, name).Short?
    ensures Completes(Value(a + [LF], p, name), a + [LF])
  {
    EolCompleted(a, p);
  }

  /** A header line may lack the colon. */
  function RestOfHeader(a: seq<Byte>, p: nat, first: bool): seq<Byte>
    requires p < |a|
  {
    if (!first && IsBlank(a[p])) || Token(a, p, COLON).Ok? then [LF] else [COLON, LF]
  }

  lemma NameCompleted(a: seq<Byte>, p: nat, first: bool)
    requires p < |a| && (first || !IsBlank(a[p])) && Token(a, p, COLON).Short?
    ensures Completes(HeaderLine(a + [COLON, LF], p, first), a + [COLON, LF])
  {
    var s := a + [COLON, LF];
    TokenResumes(a, s, p, COLON);
    assert s[|a|] == COLON && s[|a| + 1] == LF;
    assert Token(s, p, COLON) == Ok(Slice(p, |a| - p), |a|);
    assert SkipBlanks(s, |a| + 1) == Ok((), |a| + 1);
    assert FindCtl(s, |a| + 1) == Ok((), |a| + 1);
  }

  lemma BlanksCompleted(a: seq<Byte>, p: nat, first: bool)
    requires p < |a| && (first || !IsBlank(a[p])) && HeaderLine(a, p, first).Short? && Token(a, p, COLON).Ok?
    ensures Completes(HeaderLine(a + [LF], p, first), a + [LF])
  {
    var s, q := a + [LF], Token(a, p, COLON).next + 1;
    TokenGrows(a, s, p, COLON);
    SkipBlanksGrows(a, s, q);
    if SkipBlanks(a, q).Short? {
      BlanksResume(a, s, q);
      assert FindCtl(s, |a|) == Ok((), |a|);
    } else {
      ValueCompleted(a, SkipBlanks(a, q).next, Token(a, p, COLON).value);
    }
  }

  lemma HeaderLineCompleted(a: seq<Byte>, p: nat, first: bool)
    requires p < |a| && HeaderLine(a, p, first).Short?
    ensures var s := a + RestOfHeader(a, p, first); Completes(HeaderLine(s, p, first), s)
  {
    if !first && IsBlank(a[p]) {
      ValueCompleted(a, p, Null);
    } else if Token(a, p, COLON).Ok? {
      BlanksCompleted(a, p, first);
    } else {
      NameCompleted(a, p, first);
    }
  }

  /** Every header block that is incomplete can be completed. */
  lemma {:induction false} HeadersCompleted(a: seq<Byte>, p: nat, n: nat, max: nat) returns (more: seq<Byte>)
    requires p <= |a| && Headers(a, p, n, max).Short?
    ensures Headers(a + more, p, n, max).Ok?
    decreases |a| - p
  {
    if p == |a| || a[p] == CR || a[p] == LF {
      more := [LF];
      var s := a + more;
      assert p < |a| ==> s[p] == a[p];
    } else {
      var h := HeaderLine(a, p, n == 0);
      if h.Ok? {
        more := HeadersCompleted(a, h.next, n + 1, max);
        HeaderLineSettles(a, a + more, p, n == 0);
      } else {
        var s := a + RestOfHeader(a, p, n == 0);
        HeaderLineCompleted(a, p, n == 0);
        LastLine(s, p, n, max);
        more := RestOfHeader(a, p, n == 0) + [LF];
        assert a + more == s + [LF];
      }
    }
  }

  /** A blank line after the last header line. */
  lemma LastLine(s: seq<Byte>, p: nat, n: nat, max: nat)
    requires p < |s| && s[p] != CR && s[p] != LF && n != max && Completes(HeaderLine(s, p, n == 0), s)
    ensures Headers(s + [LF], p, n, max).Ok?
  {
    HeaderLineSettles(s, s + [LF], p, n == 0);
    assert Headers(s + [LF], |s|, n + 1, max) == Ok([], |s| + 1);
  }

  // ---------- request lines ----------

  /** `HTTP/1.1` and a line feed. */
  const VERSION: seq<Byte> := [72, 84, 84, 80, 47, 49, 46, 49, 10]

  /** What is there from `p` on, of nine octets at most, begins a version and its line end. */
  predicate VersionBegun(s: seq<Byte>, p: nat) {
    && (forall i :: 0 <= i < 7 && p + i < |s| ==> s[p + i] == VERSION[i])
    && (p + 7 < |s| ==> IsDigit(s[p + 7]))
    && (p + 8 < |s| ==> s[p + 8] == CR || s[p + 8] == LF)
  }

  lemma VersionRead(s: seq<Byte>, p: nat)
    requires p + 9 <= |s|
    ensures Version(s, p).Ok? <==> s[p..p + 7] == VERSION[..7] && IsDigit(s[p + 7])
    ensures VersionBegun(s, p) <==> Version(s, p).Ok? && (s[p + 8] == CR || s[p + 8] == LF)
  {
    if VersionBegun(s, p) {
      assert s[p..p + 7] == VERSION[..7];
    }
    if Version(s, p).Ok? {
      forall i | 0 <= i < 7
        ensures s[p + i] == VERSION[i]
      {
        assert s[p..p + 7][i] == s[p + i];
      }
    }
  }

  lemma LineEndCompleted(a: seq<Byte>, p: nat, method_: Slice, path: Slice) returns (more: seq<Byte>)
    requires p <= |a| && AfterTarget(a, p, method_, path).Short? && VersionBegun(a, p)
    ensures Completes(AfterTarget(a + more, p, method_, path), a + more)
  {
    var k := |a| - p;
    if k < 9 {
      more := VERSION[k..];
      var s := a + more;
      assert forall i :: 0 <= i < 9 && i != 7 && (i != 8 || k <= 8) ==> s[p + i] == VERSION[i];
      VersionRead(s, p);
    } else {
      more := [LF];
      VersionGrows(a, a + more, p);
    }
  }

  /** The version stands at `p`. */
  lemma VersionCompletes(s: seq<Byte>, p: nat, method_: Slice, path: Slice)
    requires p + 9 == |s| && s[p..] == VERSION
    ensures Completes(AfterTarget(s, p, method_, path), s)
  {
    assert forall i :: 0 <= i < 9 ==> s[p + i] == s[p..][i];
    VersionRead(s, p);
  }

  /** The target lacks its end. */
  lemma TargetLacking(a: seq<Byte>, p: nat, method_: Slice)
    requires p < |a| && a[p] != SP && method_.Slice? && method_.len > 0 && Target(a, p).Short?
    ensures var s := a + ([SP] + VERSION); Completes(AfterMethod(s, p, method_), s)
  {
    var s := a + ([SP] + VERSION);
    TargetGiven(a, s, p, method_);
    VersionCompletes(s, |a| + 1, method_, Slice(p, |a| - p));
  }

  lemma TargetGiven(a: seq<Byte>, s: seq<Byte>, p: nat, method_: Slice)
    requires p < |a| && a[p] != SP && method_.Slice? && method_.len > 0 && Target(a, p).Short?
    requires a <= s && s[|a|..] == [SP] + VERSION
    ensures AfterMethod(s, p, method_) == AfterTarget(s, |a| + 1, method_, Slice(p, |a| - p))
    ensures |a| + 10 == |s| && s[|a| + 1..] == VERSION
  {
    TargetResumes(a, s, p);
    OneThenVersion(s, |a|);
    AfterMethodOf(s, p, method_, Slice(p, |a| - p), |a|, |a| + 1);
  }

  lemma AfterMethodOf(s: seq<Byte>, p: nat, method_: Slice, path: Slice, p3: nat, p4: nat)
    requires method_.Slice? && method_.len > 0 && Target(s, p) == Ok(path, p3) && path.len > 0
    requires SkipSpaces(s, p3 + 1).Ok? && SkipSpaces(s, p3 + 1).next == p4
    ensures AfterMethod(s, p, method_) == AfterTarget(s, p4, method_, path)
  {
  }

  lemma OneThenVersion(s: seq<Byte>, e: nat)
    requires e <= |s| && s[e..] == [SP] + VERSION
    ensures TargetEnd(s, e) == Ok((), e) && SkipSpaces(s, e + 1) == Ok((), e + 1) && s[e + 1..] == VERSION
  {
    assert s[e] == s[e..][0] && s[e + 1] == s[e..][1];
    assert s[e + 1..] == s[e..][1..];
  }

  /** The spaces after it lack theirs. */
  lemma GapLacking(a: seq<Byte>, p: nat, method_: Slice)
    requires p < |a| && a[p] != SP && method_.Slice? && method_.len > 0
    requires Target(a, p).Ok? && SkipSpaces(a, Target(a, p).next + 1).Short?
    ensures Completes(AfterMethod(a + VERSION, p, method_), a + VERSION)
  {
    var s, path, q := a + VERSION, Target(a, p).value, Target(a, p).next + 1;
    TargetEndGrows(a, s, p);
    SpacesResume(a, s, q);
    assert s[|a|] == VERSION[0];
    assert SkipSpaces(s, |a|) == Ok((), |a|);
    assert s[|a|..] == VERSION;
    AfterMethodOf(s, p, method_, path, q - 1, |a|);
    VersionCompletes(s, |a|, method_, path);
  }

  lemma VersionLacking(a: seq<Byte>, p: nat, method_: Slice) returns (more: seq<Byte>)
    requires p < |a| && a[p] != SP && method_.Slice? && method_.len > 0 && AfterMethod(a, p, method_).Short?
    requires Target(a, p).Ok? && SkipSpaces(a, Target(a, p).next + 1).Ok?
    requires VersionBegun(a, SkipSpaces(a, Target(a, p).next + 1).next)
    ensures Completes(AfterMethod(a + more, p, method_), a + more)
  {
    var path, q := Target(a, p).value, Target(a, p).next + 1;
    more := LineEndCompleted(a, SkipSpaces(a, q).next, method_, path);
    TargetEndGrows(a, a + more, p);
    SkipSpacesGrows(a, a + more, q);
  }

  lemma TargetCompleted(a: seq<Byte>, p: nat, method_: Slice) returns (more: seq<Byte>)
    requires p < |a| && a[p] != SP && method_.Slice? && method_.len > 0 && AfterMethod(a, p, method_).Short?
    requires Target(a, p).Ok? && SkipSpaces(a, Target(a, p).next + 1).Ok? ==>
               VersionBegun(a, SkipSpaces(a, Target(a, p).next + 1).next)
    ensures Completes(AfterMethod(a + more, p, method_), a + more)
  {
    if Target(a, p).Short? {
      TargetLacking(a, p, method_);
      more := [SP] + VERSION;
    } else if SkipSpaces(a, Target(a, p).next + 1).Short? {
      GapLacking(a, p, method_);
      more := VERSION;
    } else {
      more := VersionLacking(a, p, method_);
    }
  }

  /** A target and the version stand at `p`. */
  lemma TargetCompletes(s: seq<Byte>, p: nat, method_: Slice)
    requires p + 11 == |s| && s[p..] == [47, SP] + VERSION && method_.Slice? && method_.len > 0
    ensures Completes(AfterMethod(s, p, method_), s)
  {
    assert forall i :: 0 <= i < 11 ==> s[p + i] == s[p..][i];
    assert TargetEnd(s, p + 1) == Ok((), p + 1) && Target(s, p) == Ok(Slice(p, 1), p + 1);
    assert SkipSpaces(s, p + 2) == Ok((), p + 2);
    assert s[p + 2..] == VERSION;
    VersionCompletes(s, p + 2, method_, Slice(p, 1));
  }

  /** What follows the method, once it has been read. */
  predicate LateAfterMethod(s: seq<Byte>, p: nat, method_: Slice)
    requires method_.Slice?
  {
    match Target(s, p)
    case Bad => false
    case Short => method_.len == 0
    case Ok(path, p3) =>
      match SkipSpaces(s, p3 + 1)
      case Ok(_, p4) => method_.len > 0 && |s| < p4 + 9 && !VersionBegun(s, p4)
      case _ => method_.len == 0
  }

  /** The parser has not looked yet: at an empty method before the version, or at the version before nine octets of it are
      there. */
  predicate LateLine(s: seq<Byte>, p: nat) {
    match Token(s, p, SP)
    case Ok(method_, p1) =>
      (match SkipSpaces(s, p1 + 1)
       case Ok(_, p2) => LateAfterMethod(s, p2, method_)
       case _ => method_.len == 0)
    case _ => false
  }

  lemma RequestLineCompleted(a: seq<Byte>, p: nat) returns (more: seq<Byte>)
    requires p <= |a| && RequestLine(a, p).Short? && !LateLine(a, p)
    ensures Completes(RequestLine(a + more, p), a + more)
  {
    if Token(a, p, SP).Short? {
      more := [65, SP] + ([47, SP] + VERSION);
      MethodCompletes(a, p);
    } else if SkipSpaces(a, Token(a, p, SP).next + 1).Short? {
      more := [47, SP] + VERSION;
      FirstGapLacking(a, p);
    } else {
      var p1 := Token(a, p, SP).next;
      more := TargetCompleted(a, SkipSpaces(a, p1 + 1).next, Token(a, p, SP).value);
      MethodThere(a, a + more, p, p1, SkipSpaces(a, p1 + 1).next);
    }
  }

  lemma MethodThere(a: seq<Byte>, s: seq<Byte>, p: nat, p1: nat, p2: nat)
    requires a <= s && Token(a, p, SP).Ok? && Token(a, p, SP).next == p1
    requires SkipSpaces(a, p1 + 1).Ok? && SkipSpaces(a, p1 + 1).next == p2
    ensures RequestLine(s, p) == AfterMethod(s, p2, Token(a, p, SP).value)
  {
    TokenGrows(a, s, p, SP);
    SkipSpacesGrows(a, s, p1 + 1);
  }

  lemma FirstGapLacking(a: seq<Byte>, p: nat)
    requires Token(a, p, SP).Ok? && Token(a, p, SP).value.len > 0 && SkipSpaces(a, Token(a, p, SP).next + 1).Short?
    ensures var s := a + ([47, SP] + VERSION); Completes(RequestLine(s, p), s)
  {
    var s, method_, q := a + ([47, SP] + VERSION), Token(a, p, SP).value, Token(a, p, SP).next + 1;
    TokenGrows(a, s, p, SP);
    SpacesResume(a, s, q);
    assert s[|a|] == 47;
    assert SkipSpaces(s, |a|) == Ok((), |a|);
    assert s[|a|..] == [47, SP] + VERSION;
    TargetCompletes(s, |a|, method_);
    RequestLineOf(s, p, method_, q - 1, |a|);
  }

  /** The method lacks its end. */
  lemma MethodCompletes(a: seq<Byte>, p: nat)
    requires p <= |a| && Token(a, p, SP).Short?
    ensures var s := a + ([65, SP] + ([47, SP] + VERSION)); Completes(RequestLine(s, p), s)
  {
    var s, e := a + ([65, SP] + ([47, SP] + VERSION)), |a|;
    TokenResumes(a, s, p, SP);
    TwoThenTarget(s, e);
    TargetCompletes(s, e + 2, Slice(p, e + 1 - p));
    RequestLineOf(s, p, Slice(p, e + 1 - p), e + 1, e + 2);
  }

  lemma TwoThenTarget(s: seq<Byte>, e: nat)
    requires e <= |s| && s[e..] == [65, SP] + ([47, SP] + VERSION)
    ensures TokenEnd(s, e, SP) == Ok((), e + 1) && SkipSpaces(s, e + 2) == Ok((), e + 2)
    ensures s[e + 2..] == [47, SP] + VERSION
  {
    assert s[e] == s[e..][0] && s[e + 1] == s[e..][1] && s[e + 2] == s[e..][2];
    assert TokenEnd(s, e + 1, SP) == Ok((), e + 1);
    assert s[e + 2..] == s[e..][2..];
  }

  /** The request line that is looked at late is refused in the end. */
  lemma LateMethodFails(a: seq<Byte>, s: seq<Byte>, p: nat, method_: Slice)
    requires a <= s && p < |a| && a[p] != SP && method_.Slice? && LateAfterMethod(a, p, method_)
    ensures AfterMethod(a, p, method_).Short? && !AfterMethod(s, p, method_).Ok?
  {
    TargetEndGrows(a, s, p);
    if Target(a, p).Ok? {
      var q := Target(a, p).next + 1;
      SkipSpacesGrows(a, s, q);
      if SkipSpaces(a, q).Ok? {
        LateVersionFails(a, s, SkipSpaces(a, q).next, method_, Target(a, p).value);
      }
    }
  }

  lemma LateVersionFails(a: seq<Byte>, s: seq<Byte>, p: nat, method_: Slice, path: Slice)
    requires a <= s && p <= |a| < p + 9 && !VersionBegun(a, p)
    ensures AfterTarget(a, p, method_, path).Short? && !AfterTarget(s, p, method_, path).Ok?
  {
    if p + 9 <= |s| {
      VersionRead(s, p);
    }
  }

  lemma LateLineFails(a: seq<Byte>, s: seq<Byte>, p: nat)
    requires a <= s && LateLine(a, p)
    ensures RequestLine(a, p).Short? && !RequestLine(s, p).Ok?
  {
    TokenGrows(a, s, p, SP);
    var method_, q := Token(a, p, SP).value, Token(a, p, SP).next + 1;
    SkipSpacesGrows(a, s, q);
    if SkipSpaces(a, q).Ok? {
      LateMethodFails(a, s, SkipSpaces(a, q).next, method_);
    }
  }

  // ---------- requests ----------

  predicate LateRequest(s: seq<Byte>) {
    LeadingBreak(s).Ok? && LateLine(s, LeadingBreak(s).next)
  }

  /** Something makes of it a request head with at most `max` headers, and perhaps more. */
  ghost predicate CanBecomeRequest(s: seq<Byte>, max: nat) {
    exists more: seq<Byte>, n: nat, t: RequestText :: IsRequest(s + more, n, max, t)
  }

  lemma AcceptedLater(s: seq<Byte>, more: seq<Byte>, max: nat)
    requires ParseRequest(s + more, max).Ok?
    ensures CanBecomeRequest(s, max)
  {
    var n := ParseRequest(s + more, max).next;
    AcceptsExactlyTheGrammar(s + more, n, max);
    var t :| IsRequest(s + more, n, max, t);
  }

  lemma RequestCompleted(a: seq<Byte>, max: nat) returns (more: seq<Byte>)
    requires ParseRequest(a, max).Short? && !LateRequest(a)
    ensures ParseRequest(a + more, max).Ok?
  {
    if LeadingBreak(a).Short? {
      more := LeadCompleted(a, max);
    } else {
      var p := LeadingBreak(a).next;
      if RequestLine(a, p).Short? {
        more := RequestLineCompleted(a, p);
        LineThenBlank(a, more, p, max);
        more := more + [LF];
      } else {
        more := HeadersCompleted(a, RequestLine(a, p).next, 0, max);
        RequestLineSettles(a, a + more, p);
      }
      LineBreakSettles(a, a + more, 0);
    }
  }

  lemma LineThenBlank(a: seq<Byte>, more: seq<Byte>, p: nat, max: nat)
    requires LeadingBreak(a) == Ok((), p) && Completes(RequestLine(a + more, p), a + more)
    ensures ParseRequest(a + (more + [LF]), max).Ok?
  {
    var s := a + more;
    assert a + (more + [LF]) == s + [LF];
    LineBreakSettles(a, s + [LF], 0);
    RequestLineSettles(s, s + [LF], p);
    assert Headers(s + [LF], |s|, 0, max) == Ok([], |s| + 1);
  }

  /** Nothing is there yet, or a carriage return. */
  lemma LeadCompleted(a: seq<Byte>, max: nat) returns (more: seq<Byte>)
    requires LeadingBreak(a).Short?
    ensures ParseRequest(a + more, max).Ok?
  {
    var lead := a + [LF];
    assert lead == [LF] || lead == [CR, LF];
    var line := AfterLead(lead, max);
    more := [LF] + line;
    assert a + more == lead + line;
  }

  lemma AfterLead(lead: seq<Byte>, max: nat) returns (more: seq<Byte>)
    requires LeadingBreak(lead) == Ok((), |lead|)
    ensures ParseRequest(lead + more, max).Ok?
  {
    assert TokenEnd(lead, |lead|, SP).Short?;
    MethodCompletes(lead, |lead|);
    var line := [65, SP] + ([47, SP] + VERSION);
    LineThenBlank(lead, line, |lead|, max);
    more := line + [LF];
  }

  /** What the three answers mean, for every input: success that a request head is there, "incomplete" that none is but one
      can come of it, or that the parser has not looked yet, and the error that none can. */
  lemma RequestAnswers(s: seq<Byte>, max: nat)
    ensures ParseRequest(s, max).Ok? <==> exists n: nat, t: RequestText :: IsRequest(s, n, max, t)
    ensures ParseRequest(s, max).Short? <==>
            !ParseRequest(s, max).Ok? && (CanBecomeRequest(s, max) || LateRequest(s))
    ensures ParseRequest(s, max).Bad? <==> !CanBecomeRequest(s, max) && !LateRequest(s)
    ensures LateRequest(s) ==> !CanBecomeRequest(s, max)
  {
    RequestAccepted(s, max);
    if ParseRequest(s, max).Short? && !LateRequest(s) {
      var more := RequestCompleted(s, max);
      AcceptedLater(s, more, max);
    } else if ParseRequest(s, max).Ok? {
      assert s + [] == s;
      AcceptedLater(s, [], max);
    }
    if CanBecomeRequest(s, max) {
      NotHopeless(s, max);
    }
    if LateRequest(s) {
      LateLineFails(s, s, LeadingBreak(s).next);
    }
  }

  lemma RequestAccepted(s: seq<Byte>, max: nat)
    ensures ParseRequest(s, max).Ok? <==> exists n: nat, t: RequestText :: IsRequest(s, n, max, t)
  {
    if ParseRequest(s, max).Ok? {
      AcceptsExactlyTheGrammar(s, ParseRequest(s, max).next, max);
    }
    forall n: nat, t: RequestText | IsRequest(s, n, max, t)
      ensures ParseRequest(s, max).Ok?
    {
      AcceptsExactlyTheGrammar(s, n, max);
    }
  }

  lemma NotHopeless(s: seq<Byte>, max: nat)
    requires CanBecomeRequest(s, max)
    ensures !ParseRequest(s, max).Bad? && !LateRequest(s)
  {
    var more: seq<Byte>, n: nat, t: RequestText :| IsRequest(s + more, n, max, t);
    AcceptsExactlyTheGrammar(s + more, n, max);
    RequestSettles(s, s + more, max);
    if LateRequest(s) {
      LineBreakSettles(s, s + more, 0);
      LateLineFails(s, s + more, LeadingBreak(s).next);
    }
  }

  /** Nor does the pre-check refuse too early: what it is refused for stays in the way of any request. */
  lemma RequestRefusedForGood(a: seq<Byte>, s: seq<Byte>, max: nat)
    requires a <= s && a != [] && ParseRequest(a, max).Short? && Checked(s, |a|, ParseRequest(s, max)).Bad?
    ensures !CanBecomeRequest(s, max)
  {
    if CanBecomeRequest(s, max) {
      NotHopeless(s, max);
      var more: seq<Byte>, n: nat, t: RequestText :| IsRequest(s + more, n, max, t);
      AcceptsExactlyTheGrammar(s + more, n, max);
      RequestSettles(a, s + more, max);
      var b := RequestEnd(s + more, max);
      PreCheckExactly(s, |a|);
      StrayAfter(s, s + more, |a|, b, n);
    }
  }

  /** A stray carriage return that comes first leaves no room for a blank line behind the earlier input. */
  lemma StrayAfter(s: seq<Byte>, whole: seq<Byte>, lastLen: nat, b: nat, n: nat)
    requires s <= whole && BlankLine(whole, b, n) && NoStray(whole, 0, n) && lastLen < n
    ensures !StrayFirst(s, ScanStart(lastLen), ScanStart(lastLen) + 1)
  {
    var start, from := ScanStart(lastLen), ScanStart(lastLen) + 1;
    if StrayFirst(s, start, from) {
      var i :| start <= i && Stray(s, i) && NoneBefore(s, from, i);
      assert whole[i] == s[i] && whole[i + 1] == s[i + 1];
      assert n <= i;
      assert whole[b - 1] == s[b - 1] && whole[b] == s[b];
      assert BlankLine(s, b, n);
    }
  }

  // ---------- responses ----------

  /** `200` and a line feed. */
  const CODE: seq<Byte> := [50, 48, 48, 10]

  /** What is there of three digits from `p` on. */
  predicate CodeBegun(s: seq<Byte>, p: nat) {
    && (p < |s| ==> IsDigit(s[p])) && (p + 1 < |s| ==> IsDigit(s[p + 1])) && (p + 2 < |s| ==> IsDigit(s[p + 2]))
  }

  /** The parser has not looked yet: at the version before nine octets are there, at the status before four are, or at what
      stands in the place of a reason phrase before its line ends. */
  predicate LateAfterSpaces(s: seq<Byte>, p: nat) {
    if |s| < p + 4 then !CodeBegun(s, p)
    else StatusCode(s, p).Ok? && ToEol(s, p + 3).Short? && s[p + 3] != SP && s[p + 3] != CR
  }

  predicate LateResponse(s: seq<Byte>) {
    if |s| < 9 then !VersionBegun(s, 0)
    else Version(s, 0).Ok? && s[8] == SP && SkipSpaces(s, 9).Ok? && LateAfterSpaces(s, SkipSpaces(s, 9).next)
  }

  lemma ReasonCompleted(a: seq<Byte>, p: nat)
    requires p < |a| && Reason(a, p).Short? && (a[p] == SP || a[p] == CR)
    ensures Completes(Reason(a + [LF], p), a + [LF])
  {
    EolCompleted(a, p);
    assert (a + [LF])[p] == a[p];
  }

  /** The status stands at `p`. */
  lemma CodeCompletes(s: seq<Byte>, p: nat, minor: nat)
    requires p + 4 == |s| && CodeBegun(s, p) && s[p + 3] == LF
    ensures Completes(AfterVersion(s, p, minor), s)
  {
    assert FindCtl(s, p + 3) == Ok((), p + 3);
  }

  lemma CodeCompleted(a: seq<Byte>, p: nat, minor: nat) returns (more: seq<Byte>)
    requires p < |a| && AfterVersion(a, p, minor).Short? && !LateAfterSpaces(a, p)
    ensures Completes(AfterVersion(a + more, p, minor), a + more)
  {
    var k := |a| - p;
    if k < 4 {
      more := CODE[k..];
      var s := a + more;
      assert k >= 2 ==> s[p + 1] == a[p + 1];
      assert k == 3 ==> s[p + 2] == a[p + 2];
      CodeCompletes(s, p, minor);
    } else {
      more := [LF];
      StatusCodeGrows(a, a + more, p);
      ReasonCompleted(a, p + 3);
    }
  }

  lemma StatusLineCompleted(a: seq<Byte>) returns (more: seq<Byte>)
    requires StatusLine(a, 0).Short? && !LateResponse(a)
    ensures Completes(StatusLine(a + more, 0), a + more)
  {
    if |a| < 9 {
      more := ShortVersionCompleted(a);
    } else if SkipSpaces(a, 9).Short? {
      more := CODE;
      var s := a + CODE;
      VersionGrows(a, s, 0);
      SpacesResume(a, s, 9);
      assert s[|a|] == CODE[0] && s[|a| + 3] == LF;
      assert SkipSpaces(s, |a|) == Ok((), |a|);
      CodeCompletes(s, |a|, Version(s, 0).value);
    } else {
      more := CodeCompleted(a, SkipSpaces(a, 9).next, Version(a, 0).value);
      VersionGrows(a, a + more, 0);
      SkipSpacesGrows(a, a + more, 9);
    }
  }

  lemma ShortVersionCompleted(a: seq<Byte>) returns (more: seq<Byte>)
    requires |a| < 9 && VersionBegun(a, 0)
    ensures Completes(StatusLine(a + more, 0), a + more)
  {
    more := (VERSION[..8] + [SP])[|a|..] + CODE;
    var s := a + more;
    assert |s| == 13 && s[8] == SP && s[12] == LF;
    assert forall i :: 0 <= i < 7 ==> s[i] == VERSION[i];
    assert IsDigit(s[7]);
    assert s[0..7] == VERSION[..7];
    assert SkipSpaces(s, 9) == Ok((), 9);
    CodeCompletes(s, 9, Digit(s[7]));
  }

  lemma LateResponseFails(a: seq<Byte>, s: seq<Byte>)
    requires a <= s && LateResponse(a)
    ensures StatusLine(a, 0).Short? && !StatusLine(s, 0).Ok?
  {
    if |a| < 9 {
      if |s| >= 9 {
        VersionRead(s, 0);
      }
    } else {
      VersionGrows(a, s, 0);
      SkipSpacesGrows(a, s, 9);
      LateCodeFails(a, s, SkipSpaces(a, 9).next, Version(a, 0).value);
    }
  }

  lemma LateCodeFails(a: seq<Byte>, s: seq<Byte>, p: nat, minor: nat)
    requires a <= s && p < |a| && LateAfterSpaces(a, p)
    ensures AfterVersion(a, p, minor).Short? && !AfterVersion(s, p, minor).Ok?
  {
    if |a| >= p + 4 {
      StatusCodeGrows(a, s, p);
      ToEolSettles(a, s, p + 3);
      assert s[p + 3] == a[p + 3];
    } else {
      assert forall k :: 0 <= k < |a| ==> s[k] == a[k];
    }
  }

  /** Something makes of it a response head with at most `max` headers, and perhaps more. */
  ghost predicate CanBecomeResponse(s: seq<Byte>, max: nat) {
    exists more: seq<Byte>, n: nat, t: ResponseText :: IsResponse(s + more, n, max, t)
  }

  lemma ResponseAcceptedLater(s: seq<Byte>, more: seq<Byte>, max: nat)
    requires ParseResponse(s + more, max).Ok?
    ensures CanBecomeResponse(s, max)
  {
    var n := ParseResponse(s + more, max).next;
    ResponsesAreTheGrammar(s + more, n, max);
    var t :| IsResponse(s + more, n, max, t);
  }

  lemma ResponseCompleted(a: seq<Byte>, max: nat) returns (more: seq<Byte>)
    requires ParseResponse(a, max).Short? && !LateResponse(a)
    ensures ParseResponse(a + more, max).Ok?
  {
    if StatusLine(a, 0).Short? {
      var line := StatusLineCompleted(a);
      var s := a + line;
      more := line + [LF];
      assert a + more == s + [LF];
      StatusLineSettles(s, s + [LF], 0);
      assert Headers(s + [LF], |s|, 0, max) == Ok([], |s| + 1);
    } else {
      more := HeadersCompleted(a, StatusLine(a, 0).next, 0, max);
      StatusLineSettles(a, a + more, 0);
    }
  }

  lemma ResponseAnswers(s: seq<Byte>, max: nat)
    ensures ParseResponse(s, max).Ok? <==> exists n: nat, t: ResponseText :: IsResponse(s, n, max, t)
    ensures ParseResponse(s, max).Short? <==>
            !ParseResponse(s, max).Ok? && (CanBecomeResponse(s, max) || LateResponse(s))
    ensures ParseResponse(s, max).Bad? <==> !CanBecomeResponse(s, max) && !LateResponse(s)
    ensures LateResponse(s) ==> !CanBecomeResponse(s, max)
  {
    ResponseAccepted(s, max);
    if ParseResponse(s, max).Short? && !LateResponse(s) {
      var more := ResponseCompleted(s, max);
      ResponseAcceptedLater(s, more, max);
    } else if ParseResponse(s, max).Ok? {
      assert s + [] == s;
      ResponseAcceptedLater(s, [], max);
    }
    if CanBecomeResponse(s, max) {
      ResponseNotHopeless(s, max);
    }
    if LateResponse(s) {
      LateResponseFails(s, s);
    }
  }

  lemma ResponseAccepted(s: seq<Byte>, max: nat)
    ensures ParseResponse(s, max).Ok? <==> exists n: nat, t: ResponseText :: IsResponse(s, n, max, t)
  {
    if ParseResponse(s, max).Ok? {
      ResponsesAreTheGrammar(s, ParseResponse(s, max).next, max);
    }
    forall n: nat, t: ResponseText | IsResponse(s, n, max, t)
      ensures ParseResponse(s, max).Ok?
    {
      ResponsesAreTheGrammar(s, n, max);
    }
  }

  lemma ResponseNotHopeless(s: seq<Byte>, max: nat)
    requires CanBecomeResponse(s, max)
    ensures !ParseResponse(s, max).Bad? && !LateResponse(s)
  {
    var more: seq<Byte>, n: nat, t: ResponseText :| IsResponse(s + more, n, max, t);
    ResponsesAreTheGrammar(s + more, n, max);
    ResponseSettles(s, s + more, max);
    if LateResponse(s) {
      LateResponseFails(s, s + more);
    }
  }

  lemma ResponseRefusedForGood(a: seq<Byte>, s: seq<Byte>, max: nat)
    requires a <= s && a != [] && ParseResponse(a, max).Short? && Checked(s, |a|, ParseResponse(s, max)).Bad?
    ensures !CanBecomeResponse(s, max)
  {
    if CanBecomeResponse(s, max) {
      ResponseNotHopeless(s, max);
      var more: seq<Byte>, n: nat, t: ResponseText :| IsResponse(s + more, n, max, t);
      ResponsesAreTheGrammar(s + more, n, max);
      ResponseSettles(a, s + more, max);
      var b := ResponseEnd(s + more, max);
      PreCheckExactly(s, |a|);
      StrayAfter(s, s + more, |a|, b, n);
    }
  }

  // ---------- bare header blocks ----------

  /** The first `n` octets are these header lines and a blank line. */
  ghost predicate IsBlock(s: seq<Byte>, n: nat, max: nat, ts: seq<HeaderText>, end: Eol) {
    |ts| <= max && WellFormedHeaders(ts, 0) && At(s, 0, PrintHeaders(ts, end)) && n == |PrintHeaders(ts, end)|
  }

  ghost predicate CanBecomeBlock(s: seq<Byte>, max: nat) {
    exists more: seq<Byte>, n: nat, ts: seq<HeaderText>, end: Eol :: IsBlock(s + more, n, max, ts, end)
  }

  lemma BlockAccepted(s: seq<Byte>, max: nat)
    ensures Headers(s, 0, 0, max).Ok? <==> exists n: nat, ts: seq<HeaderText>, end: Eol :: IsBlock(s, n, max, ts, end)
  {
    if Headers(s, 0, 0, max).Ok? {
      var ts, end := HeadersOf(s, 0, 0, max);
      assert IsBlock(s, |PrintHeaders(ts, end)|, max, ts, end);
    }
    forall n: nat, ts: seq<HeaderText>, end: Eol | IsBlock(s, n, max, ts, end)
      ensures Headers(s, 0, 0, max).Ok?
    {
      HeadersAt(s, 0, ts, end, 0, max);
    }
  }

  lemma BlockLater(s: seq<Byte>, more: seq<Byte>, max: nat)
    ensures Headers(s + more, 0, 0, max).Ok? ==> CanBecomeBlock(s, max)
  {
    BlockAccepted(s + more, max);
    if n: nat, ts: seq<HeaderText>, end: Eol :| IsBlock(s + more, n, max, ts, end) {
    }
  }

  /** For bare header blocks there is no window: "incomplete" means that a block can come of it, the error that none can. */
  lemma HeadersAnswers(s: seq<Byte>, max: nat)
    ensures Headers(s, 0, 0, max).Ok? <==> exists n: nat, ts: seq<HeaderText>, end: Eol :: IsBlock(s, n, max, ts, end)
    ensures Headers(s, 0, 0, max).Short? <==> !Headers(s, 0, 0, max).Ok? && CanBecomeBlock(s, max)
    ensures Headers(s, 0, 0, max).Bad? <==> !CanBecomeBlock(s, max)
  {
    BlockAccepted(s, max);
    if Headers(s, 0, 0, max).Short? {
      var more := HeadersCompleted(s, 0, 0, max);
      BlockLater(s, more, max);
    } else if Headers(s, 0, 0, max).Ok? {
      assert s + [] == s;
      BlockLater(s, [], max);
    }
    if more: seq<Byte>, n: nat, ts: seq<HeaderText>, end: Eol :| IsBlock(s + more, n, max, ts, end) {
      BlockAccepted(s + more, max);
      HeadersSettle(s, s + more, 0, 0, max);
    }
  }
}
