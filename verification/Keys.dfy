/** Byte-string keys and the order of internal/storage/page.go's compareKeys. */
module Keys {

  type Byte = x: int | 0 <= x < 256
  type Bytes = seq<Byte>
  type Key = Bytes
  type Value = Bytes

  /** The part of a key's rank contributed by the bytes from position i on. */
  function RankFrom(k: Key, i: nat): (r: real)
    requires i <= |k|
    ensures 0.0 <= r < 1.0
    decreases |k| - i
  {
    if i == |k| then 0.0 else (k[i] as real + 1.0 + RankFrom(k, i + 1)) / 257.0
  }

  /** The rank embeds the lexicographic order of byte strings into [0, 1):
      a key is the fraction whose digits in base 257 are its bytes plus one. */
  function Rank(k: Key): (r: real)
    ensures 0.0 <= r < 1.0
  {
    RankFrom(k, 0)
  }

  /** Lexicographic order, written out: b continues a, or the first difference is smaller in a. */
  ghost predicate Before(a: Key, b: Key) {
    exists i :: 0 <= i <= |a| && i < |b| && a[..i] == b[..i] && (i == |a| || a[i] < b[i])
  }

  lemma {:induction false} RankAgree(a: Key, b: Key, i: nat)
    requires i <= |a| && i <= |b| && a[..i] == b[..i]
    ensures RankFrom(a, 0) - RankFrom(b, 0) == 0.0 <==> RankFrom(a, i) - RankFrom(b, i) == 0.0
    ensures RankFrom(a, 0) < RankFrom(b, 0) <==> RankFrom(a, i) < RankFrom(b, i)
  {
    if i > 0 {
      assert a[..i-1] == a[..i][..i-1] == b[..i][..i-1] == b[..i-1];
      assert a[i-1] == a[..i][i-1] == b[..i][i-1] == b[i-1];
      RankAgree(a, b, i - 1);
    }
  }

  lemma RankAtDifference(a: Key, b: Key, i: nat)
    requires i <= |a| && i < |b| && a[..i] == b[..i] && (i == |a| || a[i] < b[i])
    ensures Rank(a) < Rank(b)
  {
    RankAgree(a, b, i);
    if i < |a| {
      assert a[i] as real + 1.0 <= b[i] as real;
    }
  }

  /** Scans for the first difference; the shape of compareKeys' loop. */
  method CompareKeys(a: Key, b: Key) returns (c: int)
    ensures c < 0 <==> Rank(a) < Rank(b)
    ensures c > 0 <==> Rank(b) < Rank(a)
    ensures c == 0 <==> a == b
    ensures c == -1 || c == 0 || c == 1
  {
    var minLen := |a|;
    if |b| < minLen {
      minLen := |b|;
    }
    for i := 0 to minLen
      invariant a[..i] == b[..i]
    {
      if a[i] < b[i] {
        RankAtDifference(a, b, i);
        return -1;
      }
      if a[i] > b[i] {
        RankAtDifference(b, a, i);
        return 1;
      }
    }
    if |a| < |b| {
      RankAtDifference(a, b, minLen);
      return -1;
    }
    if |a| > |b| {
      RankAtDifference(b, a, minLen);
      return 1;
    }
    assert a == a[..minLen] && b == b[..minLen];
    return 0;
  }

  lemma FirstDifference(a: Key, b: Key) returns (i: nat)
    requires a != b
    ensures i <= |a| && i <= |b| && a[..i] == b[..i]
    ensures (i < |a| || i < |b|) && (i < |a| && i < |b| ==> a[i] != b[i])
  {
    i := 0;
    while i < |a| && i < |b| && a[i] == b[i]
      invariant i <= |a| && i <= |b| && a[..i] == b[..i]
    {
      i := i + 1;
    }
    assert a[..|a|] == a && b[..|b|] == b;
  }

  /** The rank decides the lexicographic order exactly, and no two keys share a rank. */
  lemma RankIsLexicographic(a: Key, b: Key)
    ensures Rank(a) < Rank(b) <==> Before(a, b)
    ensures Rank(a) == Rank(b) <==> a == b
  {
    if a != b {
      var i := FirstDifference(a, b);
      if i < |b| && (i == |a| || a[i] < b[i]) {
        RankAtDifference(a, b, i);
      } else {
        RankAtDifference(b, a, i);
      }
    }
    if Before(a, b) {
      var i :| 0 <= i <= |a| && i < |b| && a[..i] == b[..i] && (i == |a| || a[i] < b[i]);
      RankAtDifference(a, b, i);
    }
  }
}
