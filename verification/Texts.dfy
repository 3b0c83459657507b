/** The order in which both line sorters put their lines, and how far a list is from it. */
module Texts {
  /** The characters of a C string before its NUL, as the comparison reads them. */
  type Text = seq<int>

  /** Lexicographic order, a proper prefix coming first. */
  predicate Less(a: Text, b: Text) {
    b != [] && (a == [] || a[0] < b[0] || (a[0] == b[0] && Less(a[1..], b[1..])))
  }

  lemma {:induction false} Irreflexive(a: Text)
    ensures !Less(a, a)
  {
    if a != [] {
      Irreflexive(a[1..]);
    }
  }

  /** Exactly one of the three holds of any two texts. */
  lemma {:induction false} Trichotomy(a: Text, b: Text)
    ensures Less(a, b) || a == b || Less(b, a)
    ensures !(Less(a, b) && Less(b, a)) && (a == b ==> !Less(a, b))
    decreases |a|
  {
    Irreflexive(a);
    if a != [] && b != [] {
      Trichotomy(a[1..], b[1..]);
      assert a == [a[0]] + a[1..] && b == [b[0]] + b[1..];
    }
  }

  lemma {:induction false} Transitive(a: Text, b: Text, c: Text)
    requires !Less(b, a) && !Less(c, b)
    ensures !Less(c, a)
    decreases |a|
  {
    if a != [] && c != [] && b != [] && a[0] == b[0] == c[0] {
      Transitive(a[1..], b[1..], c[1..]);
    }
  }

  lemma {:induction false} PrefixFirst(a: Text, b: Text)
    requires a < b
    ensures Less(a, b)
  {
    if a != [] {
      assert a[0] == b[0] && a[1..] < b[1..];
      PrefixFirst(a[1..], b[1..]);
    }
  }

  /** `a` and `b` agree before `k`, and there the first ends or has the lesser character. */
  predicate DifferAt(a: Text, b: Text, k: nat) {
    k <= |a| && k < |b| && a[..k] == b[..k] && (k == |a| || a[k] < b[k])
  }

  /** The first difference decides. */
  lemma {:induction false} FirstDifference(a: Text, b: Text)
    ensures Less(a, b) <==> exists k: nat :: DifferAt(a, b, k)
    decreases |a|
  {
    if a == [] || b == [] || a[0] != b[0] {
      assert Less(a, b) ==> DifferAt(a, b, 0);
      forall k: nat | DifferAt(a, b, k)
        ensures Less(a, b)
      {
        assert k > 0 && a != [] && b != [] ==> a[..k][0] == b[..k][0];
      }
    } else {
      FirstDifference(a[1..], b[1..]);
      forall k: nat | DifferAt(a[1..], b[1..], k)
        ensures DifferAt(a, b, k + 1)
      {
        assert a[..k + 1] == [a[0]] + a[1..][..k] && b[..k + 1] == [b[0]] + b[1..][..k];
      }
      forall k: nat | DifferAt(a, b, k)
        ensures DifferAt(a[1..], b[1..], k - 1)
      {
        assert a[1..][..k - 1] == a[..k][1..] && b[1..][..k - 1] == b[..k][1..];
      }
    }
  }

  ghost predicate Sorted(v: seq<Text>) {
    forall i, j :: 0 <= i < j < |v| ==> !Less(v[j], v[i])
  }

  /** Neighbours in order means all in order. */
  lemma {:induction false} NeighboursSuffice(v: seq<Text>)
    requires forall k :: 0 <= k < |v| - 1 ==> !Less(v[k + 1], v[k])
    ensures Sorted(v)
  {
    forall i, j | 0 <= i < j < |v|
      ensures !Less(v[j], v[i])
    {
      OrderedFrom(v, i, j);
    }
  }

  lemma {:induction false} OrderedFrom(v: seq<Text>, i: nat, j: nat)
    requires forall k :: 0 <= k < |v| - 1 ==> !Less(v[k + 1], v[k])
    requires i < j < |v|
    ensures !Less(v[j], v[i])
    decreases j
  {
    assert !Less(v[j - 1 + 1], v[j - 1]);
    if i < j - 1 {
      OrderedFrom(v, i, j - 1);
      Transitive(v[i], v[j - 1], v[j]);
    }
  }

  // ---------- inversions ----------

  function Swap<T>(v: seq<T>, i: nat): (r: seq<T>)
    requires i + 1 < |v|
    ensures |r| == |v|
  {
    v[i := v[i + 1]][i + 1 := v[i]]
  }

  function CountLess(v: seq<Text>, x: Text): nat {
    if v == [] then 0 else (if Less(v[0], x) then 1 else 0) + CountLess(v[1..], x)
  }

  /** How many pairs stand in the wrong order. */
  function Inversions(v: seq<Text>): nat {
    if v == [] then 0 else CountLess(v[1..], v[0]) + Inversions(v[1..])
  }

  lemma {:induction false} CountLessSwap(v: seq<Text>, i: nat, x: Text)
    requires i + 1 < |v|
    ensures CountLess(Swap(v, i), x) == CountLess(v, x)
  {
    var w := Swap(v, i);
    if i == 0 {
      assert w[1..][1..] == v[1..][1..];
    } else {
      assert w[1..] == Swap(v[1..], i - 1);
      CountLessSwap(v[1..], i - 1, x);
    }
  }

  /** Swapping neighbours that stand in the wrong order removes exactly one inversion. */
  lemma {:induction false} SwapRemovesOne(v: seq<Text>, i: nat)
    requires i + 1 < |v| && Less(v[i + 1], v[i])
    ensures Inversions(Swap(v, i)) == Inversions(v) - 1
  {
    var w := Swap(v, i);
    if i == 0 {
      Trichotomy(v[0], v[1]);
      assert w[1..][1..] == v[1..][1..];
    } else {
      assert w[1..] == Swap(v[1..], i - 1);
      CountLessSwap(v[1..], i - 1, v[0]);
      SwapRemovesOne(v[1..], i - 1);
    }
  }

  lemma {:induction false} CountLessBound(v: seq<Text>, x: Text)
    ensures CountLess(v, x) <= |v|
  {
    if v != [] {
      CountLessBound(v[1..], x);
    }
  }

  /** The number of pairs in a list of `n`. */
  function MostInversions(n: nat): nat {
    if n == 0 then 0 else n - 1 + MostInversions(n - 1)
  }

  lemma {:induction false} MostInversionsForm(n: nat)
    ensures 2 * MostInversions(n) == n * (n - 1)
  {
    if n > 0 {
      MostInversionsForm(n - 1);
      assert n * (n - 1) == (n - 1) * (n - 2) + 2 * (n - 1);
    }
  }

  lemma {:induction false} InversionsBound(v: seq<Text>)
    ensures Inversions(v) <= MostInversions(|v|)
  {
    if v != [] {
      CountLessBound(v[1..], v[0]);
      InversionsBound(v[1..]);
    }
  }
}
