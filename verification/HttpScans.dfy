/** What the scans of HttpHead pass over: skipping such octets does not change a scan, and a scan that succeeds has
    passed over nothing else. */
module HttpScans {
  import opened Bytes
  import opened HttpHead

  lemma {:induction false} TokenSkip(s: seq<Byte>, p: nat, q: nat, stop: Byte)
    requires p <= q <= |s| && forall k :: p <= k < q ==> IsToken(s[k]) && s[k] != stop
    ensures TokenEnd(s, p, stop) == TokenEnd(s, q, stop)
    decreases q - p
  {
    if p < q {
      TokenSkip(s, p + 1, q, stop);
    }
  }

  lemma {:induction false} TargetSkip(s: seq<Byte>, p: nat, q: nat)
    requires p <= q <= |s| && forall k :: p <= k < q ==> !IsCtl(s[k]) && s[k] != SP
    ensures TargetEnd(s, p) == TargetEnd(s, q)
    decreases q - p
  {
    if p < q {
      TargetSkip(s, p + 1, q);
    }
  }

  lemma {:induction false} ValueSkip(s: seq<Byte>, p: nat, q: nat)
    requires p <= q <= |s| && forall k :: p <= k < q ==> !EndsValue(s[k])
    ensures FindCtl(s, p) == FindCtl(s, q)
    decreases q - p
  {
    if p < q {
      ValueSkip(s, p + 1, q);
    }
  }

  lemma {:induction false} SpacesSkip(s: seq<Byte>, p: nat, q: nat)
    requires p <= q <= |s| && forall k :: p <= k < q ==> s[k] == SP
    ensures SkipSpaces(s, p) == SkipSpaces(s, q)
    decreases q - p
  {
    if p < q {
      SpacesSkip(s, p + 1, q);
    }
  }

  lemma {:induction false} BlanksSkip(s: seq<Byte>, p: nat, q: nat)
    requires p <= q <= |s| && forall k :: p <= k < q ==> IsBlank(s[k])
    ensures SkipBlanks(s, p) == SkipBlanks(s, q)
    decreases q - p
  {
    if p < q {
      BlanksSkip(s, p + 1, q);
    }
  }

  lemma {:induction false} TrimSkip(s: seq<Byte>, start: nat, q: nat, end: nat)
    requires start <= q <= end <= |s| && forall k :: q <= k < end ==> IsBlank(s[k])
    ensures TrimEnd(s, start, end) == TrimEnd(s, start, q)
    decreases end - q
  {
    if q < end {
      TrimSkip(s, start, q, end - 1);
    }
  }

  lemma {:induction false} TokenPassed(s: seq<Byte>, p: nat, stop: Byte)
    requires TokenEnd(s, p, stop).Ok?
    ensures forall k :: p <= k < TokenEnd(s, p, stop).next ==> IsToken(s[k]) && s[k] != stop
    decreases |s| - p
  {
    if s[p] != stop {
      TokenPassed(s, p + 1, stop);
    }
  }

  lemma {:induction false} TargetPassed(s: seq<Byte>, p: nat)
    requires TargetEnd(s, p).Ok?
    ensures forall k :: p <= k < TargetEnd(s, p).next ==> !IsCtl(s[k]) && s[k] != SP
    decreases |s| - p
  {
    if s[p] != SP {
      TargetPassed(s, p + 1);
    }
  }

  lemma {:induction false} ValuePassed(s: seq<Byte>, p: nat)
    requires FindCtl(s, p).Ok?
    ensures forall k :: p <= k < FindCtl(s, p).next ==> !EndsValue(s[k])
    decreases |s| - p
  {
    if !EndsValue(s[p]) {
      ValuePassed(s, p + 1);
    }
  }

  lemma {:induction false} SpacesPassed(s: seq<Byte>, p: nat)
    requires SkipSpaces(s, p).Ok?
    ensures forall k :: p <= k < SkipSpaces(s, p).next ==> s[k] == SP
    decreases |s| - p
  {
    if s[p] == SP {
      SpacesPassed(s, p + 1);
    }
  }

  lemma {:induction false} BlanksPassed(s: seq<Byte>, p: nat)
    requires SkipBlanks(s, p).Ok?
    ensures forall k :: p <= k < SkipBlanks(s, p).next ==> IsBlank(s[k])
    decreases |s| - p
  {
    if IsBlank(s[p]) {
      BlanksPassed(s, p + 1);
    }
  }

  lemma {:induction false} TrimPassed(s: seq<Byte>, start: nat, end: nat)
    requires start <= end <= |s|
    ensures forall k :: TrimEnd(s, start, end) <= k < end ==> IsBlank(s[k])
    decreases end
  {
    if end != start && IsBlank(s[end - 1]) {
      TrimPassed(s, start, end - 1);
    }
  }

  lemma {:induction false} TrimStartSkip(s: seq<Byte>, start: nat, q: nat, end: nat)
    requires start <= q <= end <= |s| && forall k :: start <= k < q ==> s[k] == SP
    ensures TrimStart(s, start, end) == TrimStart(s, q, end)
    decreases q - start
  {
    if start < q {
      TrimStartSkip(s, start + 1, q, end);
    }
  }

  lemma {:induction false} TrimStartPassed(s: seq<Byte>, start: nat, end: nat)
    requires start <= end <= |s|
    ensures forall k :: start <= k < TrimStart(s, start, end) ==> s[k] == SP
    decreases end - start
  {
    if start < end && s[start] == SP {
      TrimStartPassed(s, start + 1, end);
    }
  }
}
