/** What the answers of the parser on the octets read so far say about its answer on more of them: a success or a
    failure is final, and "incomplete" means that success needs octets not yet there. */
module HttpPrefix {
  import opened Bytes
  import opened HttpHead

  /** `ra` is the answer on a prefix of length `n` of the input that `rs` is the answer on. */
  predicate Grows<T(==)>(ra: Res<T>, rs: Res<T>, n: nat) {
    if ra.Short? then rs.Ok? ==> rs.next >= n else rs == ra
  }

  /** The same for a parser that has read everything before the place where it stops. */
  predicate Settles<T(==)>(ra: Res<T>, rs: Res<T>, n: nat) {
    if ra.Short? then rs.Ok? ==> rs.next > n else rs == ra
  }

  lemma {:induction false} TokenGrows(a: seq<Byte>, s: seq<Byte>, p: nat, stop: Byte)
    requires a <= s
    ensures Grows(Token(a, p, stop), Token(s, p, stop), |a|)
  {
    TokenEndGrows(a, s, p, stop);
  }

  lemma {:induction false} TokenEndGrows(a: seq<Byte>, s: seq<Byte>, p: nat, stop: Byte)
    requires a <= s
    ensures Grows(TokenEnd(a, p, stop), TokenEnd(s, p, stop), |a|)
    decreases |a| - p
  {
    if p < |a| {
      TokenEndGrows(a, s, p + 1, stop);
    }
  }

  lemma {:induction false} TargetEndGrows(a: seq<Byte>, s: seq<Byte>, p: nat)
    requires a <= s
    ensures Grows(TargetEnd(a, p), TargetEnd(s, p), |a|)
    decreases |a| - p
  {
    if p < |a| {
      TargetEndGrows(a, s, p + 1);
    }
  }

  lemma {:induction false} FindCtlGrows(a: seq<Byte>, s: seq<Byte>, p: nat)
    requires a <= s
    ensures Grows(FindCtl(a, p), FindCtl(s, p), |a|)
    decreases |a| - p
  {
    if p < |a| {
      FindCtlGrows(a, s, p + 1);
    }
  }

  lemma {:induction false} SkipSpacesGrows(a: seq<Byte>, s: seq<Byte>, p: nat)
    requires a <= s
    ensures Grows(SkipSpaces(a, p), SkipSpaces(s, p), |a|)
    decreases |a| - p
  {
    if p < |a| {
      SkipSpacesGrows(a, s, p + 1);
    }
  }

  lemma {:induction false} SkipBlanksGrows(a: seq<Byte>, s: seq<Byte>, p: nat)
    requires a <= s
    ensures Grows(SkipBlanks(a, p), SkipBlanks(s, p), |a|)
    decreases |a| - p
  {
    if p < |a| {
      SkipBlanksGrows(a, s, p + 1);
    }
  }

  lemma {:induction false} TrimEndGrows(a: seq<Byte>, s: seq<Byte>, start: nat, end: nat)
    requires a <= s && start <= end <= |a|
    ensures TrimEnd(a, start, end) == TrimEnd(s, start, end)
    decreases end
  {
    if start < end {
      TrimEndGrows(a, s, start, end - 1);
    }
  }

  lemma {:induction false} TrimStartGrows(a: seq<Byte>, s: seq<Byte>, start: nat, end: nat)
    requires a <= s && start <= end <= |a|
    ensures TrimStart(a, start, end) == TrimStart(s, start, end)
    decreases end - start
  {
    if start < end {
      TrimStartGrows(a, s, start + 1, end);
    }
  }

  lemma LineBreakSettles(a: seq<Byte>, s: seq<Byte>, p: nat)
    requires a <= s
    ensures Settles(LineBreak(a, p), LineBreak(s, p), |a|)
  {
  }

  lemma ToEolSettles(a: seq<Byte>, s: seq<Byte>, p: nat)
    requires a <= s
    ensures Settles(ToEol(a, p), ToEol(s, p), |a|)
  {
    FindCtlGrows(a, s, p);
    if FindCtl(s, p).Ok? {
      LineBreakSettles(a, s, FindCtl(s, p).next);
    }
  }

  lemma ValueSettles(a: seq<Byte>, s: seq<Byte>, p: nat, name: Slice)
    requires a <= s
    ensures Settles(Value(a, p, name), Value(s, p, name), |a|)
  {
    ToEolSettles(a, s, p);
    if ToEol(a, p).Ok? {
      TrimEndGrows(a, s, p, p + ToEol(a, p).value.len);
    }
  }

  lemma HeaderLineSettles(a: seq<Byte>, s: seq<Byte>, p: nat, first: bool)
    requires a <= s
    ensures Settles(HeaderLine(a, p, first), HeaderLine(s, p, first), |a|)
  {
    if p >= |a| {
    } else if !first && IsBlank(s[p]) {
      ValueSettles(a, s, p, Null);
    } else if Token(s, p, COLON).Ok? {
      TokenGrows(a, s, p, COLON);
      var q := Token(s, p, COLON).next + 1;
      SkipBlanksGrows(a, s, q);
      if SkipBlanks(s, q).Ok? {
        ValueSettles(a, s, SkipBlanks(s, q).next, Token(s, p, COLON).value);
      }
    } else {
      TokenGrows(a, s, p, COLON);
    }
  }

  function Then(r: Res<Header>, more: Res<seq<Header>>): Res<seq<Header>> {
    match r case Bad => Bad case Short => Short case Ok(h, _) => Prepend([h], more)
  }

  lemma ThenSettles(ra: Res<Header>, rs: Res<Header>, moreA: Res<seq<Header>>, moreS: Res<seq<Header>>, n: nat)
    requires Settles(ra, rs, n) && (ra.Ok? ==> Settles(moreA, moreS, n))
    requires rs.Ok? && moreS.Ok? ==> rs.next < moreS.next
    ensures Settles(Then(ra, moreA), Then(rs, moreS), n)
  {
  }

  lemma {:induction false} HeadersSettle(a: seq<Byte>, s: seq<Byte>, p: nat, n: nat, max: nat)
    requires a <= s
    ensures Settles(Headers(a, p, n, max), Headers(s, p, n, max), |a|)
    decreases |s| - p, 1
  {
    if p < |a| {
      assert a[p] == s[p];
      if s[p] == CR || s[p] == LF {
        LineBreakSettles(a, s, p);
      } else if n != max {
        MoreHeadersSettle(a, s, p, n, max);
      }
    }
  }

  lemma {:induction false} MoreHeadersSettle(a: seq<Byte>, s: seq<Byte>, p: nat, n: nat, max: nat)
    requires a <= s && p < |a| && n != max && s[p] != CR && s[p] != LF
    ensures Settles(Headers(a, p, n, max), Headers(s, p, n, max), |a|)
    decreases |s| - p, 0
  {
    var ha, hs := HeaderLine(a, p, n == 0), HeaderLine(s, p, n == 0);
    HeaderLineSettles(a, s, p, n == 0);
    var moreA := if ha.Ok? then Headers(a, ha.next, n + 1, max) else Bad;
    var moreS := if hs.Ok? then Headers(s, hs.next, n + 1, max) else Bad;
    if ha.Ok? {
      HeadersSettle(a, s, hs.next, n + 1, max);
    }
    ThenSettles(ha, hs, moreA, moreS, |a|);
    assert Headers(a, p, n, max) == Then(ha, moreA);
    assert Headers(s, p, n, max) == Then(hs, moreS);
  }

  /** Despite the nine octets that the version asks for, of which it reads only eight. */
  lemma VersionGrows(a: seq<Byte>, s: seq<Byte>, p: nat)
    requires a <= s
    ensures Grows(Version(a, p), Version(s, p), |a|)
  {
    if p + 9 <= |a| {
      assert a[p..p + 7] == s[p..p + 7];
    }
  }

  lemma RequestLineSettles(a: seq<Byte>, s: seq<Byte>, p: nat)
    requires a <= s
    ensures Settles(RequestLine(a, p), RequestLine(s, p), |a|)
  {
    TokenGrows(a, s, p, SP);
    if Token(s, p, SP).Ok? {
      var p1 := Token(s, p, SP).next + 1;
      SkipSpacesGrows(a, s, p1);
      if SkipSpaces(s, p1).Ok? {
        AfterMethodSettles(a, s, SkipSpaces(s, p1).next, Token(s, p, SP).value);
      }
    }
  }

  lemma AfterMethodSettles(a: seq<Byte>, s: seq<Byte>, p: nat, method_: Slice)
    requires a <= s && method_.Slice?
    ensures Settles(AfterMethod(a, p, method_), AfterMethod(s, p, method_), |a|)
  {
    TargetEndGrows(a, s, p);
    if Target(s, p).Ok? {
      var p1 := Target(s, p).next + 1;
      SkipSpacesGrows(a, s, p1);
      if SkipSpaces(s, p1).Ok? {
        AfterTargetSettles(a, s, SkipSpaces(s, p1).next, method_, Target(s, p).value);
      }
    }
  }

  lemma AfterTargetSettles(a: seq<Byte>, s: seq<Byte>, p: nat, method_: Slice, path: Slice)
    requires a <= s
    ensures Settles(AfterTarget(a, p, method_, path), AfterTarget(s, p, method_, path), |a|)
  {
    VersionGrows(a, s, p);
    if Version(s, p).Ok? {
      LineBreakSettles(a, s, Version(s, p).next);
    }
  }

  /** A request that is accepted or refused stays so whatever follows; one that is incomplete can succeed only by
      reading past what is there. */
  lemma RequestSettles(a: seq<Byte>, s: seq<Byte>, max: nat)
    requires a <= s
    ensures Settles(ParseRequest(a, max), ParseRequest(s, max), |a|)
  {
    LineBreakSettles(a, s, 0);
    if LeadingBreak(s).Ok? {
      var p := LeadingBreak(s).next;
      RequestLineSettles(a, s, p);
      if RequestLine(s, p).Ok? {
        HeadersSettle(a, s, RequestLine(s, p).next, 0, max);
      }
    }
  }

  lemma StatusCodeGrows(a: seq<Byte>, s: seq<Byte>, p: nat)
    requires a <= s
    ensures Grows(StatusCode(a, p), StatusCode(s, p), |a|)
  {
  }

  lemma ReasonSettles(a: seq<Byte>, s: seq<Byte>, p: nat)
    requires a <= s
    ensures Settles(Reason(a, p), Reason(s, p), |a|)
  {
    ToEolSettles(a, s, p);
    if ToEol(a, p).Ok? {
      TrimStartGrows(a, s, p, p + ToEol(a, p).value.len);
    }
  }

  lemma AfterVersionSettles(a: seq<Byte>, s: seq<Byte>, p: nat, minor: nat)
    requires a <= s
    ensures Settles(AfterVersion(a, p, minor), AfterVersion(s, p, minor), |a|)
  {
    StatusCodeGrows(a, s, p);
    if StatusCode(s, p).Ok? {
      ReasonSettles(a, s, StatusCode(s, p).next);
    }
  }

  lemma StatusLineSettles(a: seq<Byte>, s: seq<Byte>, p: nat)
    requires a <= s
    ensures Settles(StatusLine(a, p), StatusLine(s, p), |a|)
  {
    VersionGrows(a, s, p);
    if Version(s, p).Ok? {
      var p1 := Version(s, p).next + 1;
      SkipSpacesGrows(a, s, p1);
      if SkipSpaces(s, p1).Ok? {
        AfterVersionSettles(a, s, SkipSpaces(s, p1).next, Version(s, p).value);
      }
    }
  }

  lemma ResponseSettles(a: seq<Byte>, s: seq<Byte>, max: nat)
    requires a <= s
    ensures Settles(ParseResponse(a, max), ParseResponse(s, max), |a|)
  {
    StatusLineSettles(a, s, 0);
    if StatusLine(s, 0).Ok? {
      HeadersSettle(a, s, StatusLine(s, 0).next, 0, max);
    }
  }

  /** Framing is unambiguous: a message ends at one place only, and every shorter prefix of it is incomplete. */
  lemma RequestFraming(s: seq<Byte>, max: nat, k: nat)
    requires ParseRequest(s, max).Ok? && k <= |s|
    ensures var r := ParseRequest(s, max);
            ParseRequest(s[..k], max) == if k < r.next then Short else r
  {
    RequestSettles(s[..k], s, max);
  }

  lemma ResponseFraming(s: seq<Byte>, max: nat, k: nat)
    requires ParseResponse(s, max).Ok? && k <= |s|
    ensures var r := ParseResponse(s, max);
            ParseResponse(s[..k], max) == if k < r.next then Short else r
  {
    ResponseSettles(s[..k], s, max);
  }
}
