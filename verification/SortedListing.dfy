/** The sorted listing of a map: what every scan has to produce. */
module SortedListing {
  import opened Keys
  import opened RecordPage

  ghost predicate Lists(out: seq<Pair>, m: map<Key, Value>) {
    && Sorted(out)
    && forall c: Pair :: c in out <==> c.key in m && m[c.key] == c.data
  }

  lemma Inhabited(a: seq<Pair>, b: seq<Pair>)
    requires |a| > 0 && forall c :: c in a ==> c in b
    ensures |b| > 0
  {
    assert a[0] in b;
  }

  /** Sorted sequences with the same cells are the same sequence. */
  lemma {:induction false} SortedUnique(a: seq<Pair>, b: seq<Pair>)
    requires Sorted(a) && Sorted(b) && forall c :: c in a <==> c in b
    ensures a == b
  {
    hide Rank;
    if |a| > 0 {
      Inhabited(a, b);
    }
    if |b| > 0 {
      Inhabited(b, a);
    }
    if |a| > 0 && |b| > 0 {
      assert a[0] in b && b[0] in a;
      assert a[0] == b[0];
      forall c ensures c in a[1..] <==> c in b[1..] {
        assert c in a[1..] <==> c in a && c != a[0] by { assert a == [a[0]] + a[1..]; }
        assert c in b[1..] <==> c in b && c != b[0] by { assert b == [b[0]] + b[1..]; }
      }
      SortedUnique(a[1..], b[1..]);
      assert a == [a[0]] + a[1..] && b == [b[0]] + b[1..];
    }
  }

  lemma {:induction false} LeastKey(keys: set<Key>) returns (k: Key)
    requires keys != {}
    ensures k in keys && forall x :: x in keys ==> Rank(k) <= Rank(x)
  {
    hide Rank;
    k :| k in keys;
    if keys != {k} {
      assert keys == {k} + (keys - {k});
      var r := LeastKey(keys - {k});
      if Rank(r) < Rank(k) {
        k := r;
      }
    }
  }

  lemma LeastKeyExists(m: map<Key, Value>)
    requires m != map[]
    ensures exists k :: k in m && forall x :: x in m ==> Rank(k) <= Rank(x)
  {
    assert m.Keys != {};
    var k := LeastKey(m.Keys);
  }

  /** The pairs of a map in ascending key order. */
  ghost function Listing(m: map<Key, Value>): (out: seq<Pair>)
    ensures Lists(out, m)
    decreases |m|
  {
    if m == map[] then []
    else
      LeastKeyExists(m);
      var k :| k in m && forall x :: x in m ==> Rank(k) <= Rank(x);
      assert (m - {k}).Keys == m.Keys - {k};
      var rest := Listing(m - {k});
      ListsCons(m, k, rest);
      [Cell(k, m[k])] + rest
  }

  lemma ListsCons(m: map<Key, Value>, k: Key, rest: seq<Pair>)
    requires k in m && (forall x :: x in m ==> Rank(k) <= Rank(x)) && Lists(rest, m - {k})
    ensures Lists([Cell(k, m[k])] + rest, m)
  {
    hide Rank;
    var out := [Cell(k, m[k])] + rest;
    forall i | 0 <= i < |rest| ensures Rank(k) < Rank(rest[i].key) {
      assert rest[i] in rest;
      RankIsLexicographic(k, rest[i].key);
    }
    forall c: Pair ensures c in out <==> c.key in m && m[c.key] == c.data {
      assert c in out <==> c == Cell(k, m[k]) || c in rest;
    }
  }

  /** Any correct listing is the listing. */
  lemma ListsIsListing(out: seq<Pair>, m: map<Key, Value>)
    requires Lists(out, m)
    ensures out == Listing(m)
  {
    SortedUnique(out, Listing(m));
  }

  /** The map beyond a key; the whole map when there is none. */
  ghost function After(m: map<Key, Value>, after: Option<Key>): map<Key, Value> {
    map k | k in m && (after.None? || Rank(after.value) < Rank(k)) :: m[k]
  }

  lemma AfterNone(m: map<Key, Value>)
    ensures After(m, None) == m
  {
  }

  /** The listing beyond a key is the end of the whole listing. */
  lemma ListingAfter(m: map<Key, Value>, after: Option<Key>) returns (skip: nat)
    ensures skip <= |Listing(m)| && Listing(After(m, after)) == Listing(m)[skip..]
    ensures after.None? ==> skip == 0
    ensures after.Some? ==> forall i :: 0 <= i < |Listing(m)| ==>
      (i < skip <==> Rank(Listing(m)[i].key) <= Rank(after.value))
  {
    hide Rank;
    var L := Listing(m);
    if after.None? {
      skip := 0;
      AfterNone(m);
    } else {
      skip := CountUpTo(L, after.value);
      var tail := L[skip..];
      forall c: Pair ensures c in tail <==> c.key in After(m, after) && After(m, after)[c.key] == c.data {
        TailHas(L, skip, after.value, c);
      }
      ListsIsListing(tail, After(m, after));
    }
  }

  lemma TailHas(L: seq<Pair>, skip: nat, k: Key, c: Pair)
    requires skip <= |L| && forall i :: 0 <= i < |L| ==> (i < skip <==> Rank(L[i].key) <= Rank(k))
    ensures c in L[skip..] <==> c in L && Rank(k) < Rank(c.key)
  {
  }

  lemma {:induction false} CountUpTo(L: seq<Pair>, k: Key) returns (n: nat)
    requires Sorted(L)
    ensures n <= |L| && forall i :: 0 <= i < |L| ==> (i < n <==> Rank(L[i].key) <= Rank(k))
  {
    hide Rank;
    if |L| == 0 || Rank(k) < Rank(L[0].key) {
      n := 0;
    } else {
      var n' := CountUpTo(L[1..], k);
      n := n' + 1;
      assert forall i :: 1 <= i < |L| ==> L[i] == L[1..][i-1];
    }
  }

  /** The part of a sorted sequence whose ranks lie below x. */
  ghost function Below(s: seq<Pair>, x: real): (n: nat)
    ensures n <= |s|
    ensures forall i :: 0 <= i < n ==> Rank(s[i].key) < x
    ensures n < |s| ==> x <= Rank(s[n].key)
  {
    if |s| == 0 || x <= Rank(s[0].key) then 0 else 1 + Below(s[1..], x)
  }

  lemma BelowIs(s: seq<Pair>, x: real, i: nat)
    requires Sorted(s) && i < |s|
    ensures i < Below(s, x) <==> Rank(s[i].key) < x
  {
  }

  lemma SliceSorted(s: seq<Pair>, i: nat, j: nat)
    requires Sorted(s) && i <= j <= |s|
    ensures Sorted(s[i..j])
  {
  }

  lemma BelowSlice(s: seq<Pair>, lo: real, hi: real)
    requires Sorted(s) && lo <= hi
    ensures Below(s, lo) <= Below(s, hi)
    ensures var r := s[Below(s, lo)..Below(s, hi)];
      Sorted(r) && forall c :: c in r <==> c in s && lo <= Rank(c.key) < hi
  {
    hide *;
    BelowOrder(s, lo, hi);
    SliceSorted(s, Below(s, lo), Below(s, hi));
    forall c ensures c in s[Below(s, lo)..Below(s, hi)] <==> c in s && lo <= Rank(c.key) < hi {
      SliceHas(s, lo, hi, c);
    }
  }

  lemma BelowOrder(s: seq<Pair>, lo: real, hi: real)
    requires Sorted(s) && lo <= hi
    ensures Below(s, lo) <= Below(s, hi)
  {
    var i := Below(s, lo);
    if i > 0 {
      BelowIs(s, hi, i - 1);
    }
  }

  lemma SliceHas(s: seq<Pair>, lo: real, hi: real, c: Pair)
    requires Sorted(s) && Below(s, lo) <= Below(s, hi)
    ensures c in s[Below(s, lo)..Below(s, hi)] <==> c in s && lo <= Rank(c.key) < hi
  {
    hide *;
    var i, j := Below(s, lo), Below(s, hi);
    if k :| 0 <= k < |s| && s[k] == c {
      BelowIs(s, lo, k);
      BelowIs(s, hi, k);
      if i <= k < j {
        assert s[i..j][k - i] == c;
      }
    }
    if k :| 0 <= k < j - i && s[i..j][k] == c {
      assert s[i+k] == c;
      BelowIs(s, lo, i + k);
      BelowIs(s, hi, i + k);
    }
  }

  lemma BelowEnds(s: seq<Pair>)
    ensures Below(s, 0.0) == 0 && Below(s, 1.0) == |s|
  {
  }

  /** What a scan hands over when its callback may stop it: everything up to the first refusal. */
  ghost function TakeUntil(s: seq<Pair>, accept: Pair -> bool): seq<Pair> {
    if |s| == 0 then []
    else if !accept(s[0]) then [s[0]]
    else [s[0]] + TakeUntil(s[1..], accept)
  }

  ghost predicate AllAccepted(s: seq<Pair>, accept: Pair -> bool) {
    forall i :: 0 <= i < |s| ==> accept(s[i])
  }

  lemma {:induction false} TakeUntilStop(s: seq<Pair>, n: nat, accept: Pair -> bool)
    requires n <= |s| && AllAccepted(s[..n], accept)
    ensures n < |s| && !accept(s[n]) ==> TakeUntil(s, accept) == s[..n+1]
    ensures n == |s| ==> TakeUntil(s, accept) == s
  {
    if n > 0 {
      assert s[1..][..n-1] == s[..n][1..];
      TakeUntilStop(s[1..], n - 1, accept);
      assert n < |s| ==> s[1..][n-1] == s[n] && [s[0]] + s[1..][..n] == s[..n+1];
      assert s == [s[0]] + s[1..];
      assert accept(s[..n][0]);
    }
  }
}
