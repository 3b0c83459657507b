/** The hash of the cache in arkhipov/32, on which everything else in the cache relies to stay inside its arrays. */
module CacheHash {
  import opened Division

  /** A signed C `char`. */
  type Char = c: int | -128 <= c < 128

  type Key = seq<Char>

  /** The remainder of C, which has the sign of the dividend. */
  function Rem(a: int, p: int): int
    requires p > 0
  {
    if a >= 0 then a % p else -((-a) % p)
  }

  function Hash(key: Key, p: int): (h: int)
    requires p > 0
    ensures -p < h < p
  {
    if key == [] then 0 else Rem(Hash(key[..|key| - 1], p) + key[|key| - 1], p)
  }

  function Sum(key: Key): int {
    if key == [] then 0 else Sum(key[..|key| - 1]) + key[|key| - 1]
  }

  /** A C string ends at its first NUL. */
  predicate CString(key: Key) {
    forall i :: 0 <= i < |key| ==> key[i] != 0
  }

  /** The octets a C string of ASCII characters can hold. */
  predicate Ascii(key: Key) {
    forall i :: 0 <= i < |key| ==> key[i] > 0
  }

  method GetHash(str: Key, p: int) returns (hash: int)
    requires p > 0
    ensures hash == Hash(str, p)
  {
    hash := 0;
    var i := 0;
    while i < |str|
      invariant 0 <= i <= |str| && hash == Hash(str[..i], p)
    {
      assert str[..i + 1][..i] == str[..i];
      hash := Rem(hash + str[i], p);
      i := i + 1;
    }
    assert str[..i] == str;
  }

  /** A key without negative characters hashes to their sum, and so to a bucket. */
  lemma {:induction false} PlainHash(key: Key, p: int)
    requires p > 0 && forall i :: 0 <= i < |key| ==> key[i] >= 0
    ensures Hash(key, p) == Sum(key) % p && Sum(key) >= 0
  {
    if key != [] {
      var rest, c := key[..|key| - 1], key[|key| - 1];
      PlainHash(rest, p);
      ModOfSum(Sum(rest), c, p);
    }
  }

  lemma ModOfSum(a: nat, c: nat, p: nat)
    requires p > 0
    ensures (a % p + c) % p == (a + c) % p
  {
    var x := a % p + c;
    assert a + c == p * (a / p + x / p) + x % p;
    DivUnique(p, a + c, a / p + x / p, x % p);
  }

  /** `key` is written with these characters. */
  ghost predicate Over(key: Key, alphabet: set<Char>) {
    forall i :: 0 <= i < |key| ==> key[i] in alphabet
  }

  /** A character above 127 is negative, and can make the bucket number negative. */
  lemma HashBelowZero(c: Char)
    requires c < 0
    ensures Hash([c], 1 - c) == c
  {
    var key: Key := [c];
    assert key[..0] == [];
  }

  ghost predicate HashesToBuckets(alphabet: set<Char>, p: int)
    requires p > 0
  {
    forall key: Key :: Over(key, alphabet) ==> 0 <= Hash(key, p) < p
  }

  predicate Harmless(alphabet: set<Char>, p: int)
    requires p > 0
  {
    (forall c :: c in alphabet ==> c >= 0) || (forall c :: c in alphabet ==> c % p == 0)
  }

  /** A multiple of `p` added to one leaves one. */
  lemma MultipleAdded(a: int, c: int, p: int)
    requires p > 0 && c % p == 0 && Rem(a, p) == 0
    ensures Rem(a + c, p) == 0
  {
    var k := if a >= 0 then a / p else -((-a) / p);
    assert a == p * k;
    assert a + c == p * (k + c / p);
    MultipleRem(k + c / p, p);
  }

  /** A negative multiple of `p` added to a smaller number that is none leaves a negative remainder. */
  lemma MultipleTaken(a: int, c: int, p: int)
    requires 0 < a < p && c < 0 && c % p == 0
    ensures Rem(a + c, p) < 0
  {
    var q := -(c / p);
    assert -c == p * q;
    assert -(a + c) == p * (q - 1) + (p - a);
    DivUnique(p, -(a + c), q - 1, p - a);
  }

  lemma MultipleRem(k: int, p: int)
    requires p > 0
    ensures Rem(p * k, p) == 0
  {
    if k >= 0 {
      assert p * k >= 0;
      DivUnique(p, p * k, k, 0);
    } else {
      assert p * k < 0 && -(p * k) == p * (-k);
      DivUnique(p, p * (-k), -k, 0);
    }
  }

  lemma {:induction false} MultiplesHashToZero(key: Key, p: int)
    requires p > 0 && forall i :: 0 <= i < |key| ==> key[i] % p == 0
    ensures Hash(key, p) == 0
  {
    if key != [] {
      MultiplesHashToZero(key[..|key| - 1], p);
      MultipleAdded(0, key[|key| - 1], p);
    }
  }

  /** A negative character and one that is no multiple of the size give a key with a negative bucket number. */
  lemma HarmfulKey(c: Char, d: Char, p: int) returns (key: Key)
    requires p > 0 && c < 0 && d % p != 0
    ensures Over(key, {c, d}) && Hash(key, p) < 0
  {
    if d < 0 {
      key := [d];
      assert key[..0] == [];
      RemOfNegative(d, p);
    } else if c % p != 0 {
      key := [c];
      assert key[..0] == [];
      RemOfNegative(c, p);
    } else {
      key := [d, c];
      assert key[..1] == [d] && [d][..0] == [];
      assert Hash([d], p) == d % p;
      MultipleTaken(d % p, c, p);
    }
  }

  lemma RemOfNegative(c: int, p: int)
    requires p > 0 && c < 0 && c % p != 0
    ensures Rem(c, p) < 0
  {
    if (-c) % p == 0 {
      Opposite(p, -c);
    }
  }

  /** The keys written with some characters hash to buckets exactly when none of these is negative or all are multiples
      of the number of buckets. */
  lemma HashIsBucketExactly(alphabet: set<Char>, p: int)
    requires p > 0
    ensures HashesToBuckets(alphabet, p) <==> Harmless(alphabet, p)
  {
    if Harmless(alphabet, p) {
      forall key: Key | Over(key, alphabet)
        ensures 0 <= Hash(key, p) < p
      {
        if forall c :: c in alphabet ==> c >= 0 {
          PlainHash(key, p);
        } else {
          MultiplesHashToZero(key, p);
        }
      }
    } else {
      var c: Char :| c in alphabet && c < 0;
      var d: Char :| d in alphabet && d % p != 0;
      var key := HarmfulKey(c, d, p);
      assert Over(key, alphabet);
    }
  }

  /** For every number of buckets they do exactly when none is negative. */
  lemma HashIsAlwaysBucketExactly(alphabet: set<Char>)
    ensures (forall p: int :: p > 0 ==> HashesToBuckets(alphabet, p)) <==> forall c: Char :: c in alphabet ==> c >= 0
  {
    if c: Char :| c in alphabet && c < 0 {
      HashBelowZero(c);
      assert Over([c], alphabet);
      assert !HashesToBuckets(alphabet, 1 - c);
    } else {
      forall p: int | p > 0
        ensures HashesToBuckets(alphabet, p)
      {
        HashIsBucketExactly(alphabet, p);
      }
    }
  }

  /** Every ASCII key hashes to one of the first `capacity` buckets. */
  ghost predicate HashesBelow(size: nat, capacity: nat)
    requires size > 0
  {
    forall key: Key :: Ascii(key) ==> 0 <= Hash(key, size) < capacity
  }

  function Ones(n: nat): (key: Key)
    ensures Ascii(key) && |key| == n
  {
    seq(n, _ => 1)
  }

  lemma {:induction false} SumOfOnes(n: nat)
    ensures Sum(Ones(n)) == n
  {
    if n > 0 {
      assert Ones(n)[..n - 1] == Ones(n - 1);
      SumOfOnes(n - 1);
    }
  }

  /** With fewer counts than buckets, `capacity` times the character 1 hashes past the last count. */
  lemma OnesPastTheCounts(size: nat, capacity: nat)
    requires capacity < size
    ensures Hash(Ones(capacity), size) == capacity
  {
    SumOfOnes(capacity);
    PlainHash(Ones(capacity), size);
    DivUnique(size, capacity, 0, capacity);
  }

  /** The counts, of which there are `capacity`, serve every ASCII key exactly when there are as many as buckets. */
  lemma CountsFitExactly(size: nat, capacity: nat)
    requires size > 0
    ensures HashesBelow(size, capacity) <==> size <= capacity
  {
    if size <= capacity {
      forall key: Key | Ascii(key)
        ensures 0 <= Hash(key, size) < capacity
      {
        PlainHash(key, size);
      }
    } else {
      OnesPastTheCounts(size, capacity);
    }
  }

  method StrEquals(key1: Key, key2: Key) returns (equal: bool)
    ensures equal <==> key1 == key2
  {
    if |key1| != |key2| {
      return false;
    }
    var i := 0;
    while i < |key1|
      invariant 0 <= i <= |key1| && key1[..i] == key2[..i]
    {
      if key1[i] != key2[i] {
        return false;
      }
      i := i + 1;
    }
    assert key1[..i] == key1 && key2[..i] == key2;
    return true;
  }
}
