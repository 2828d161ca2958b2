/**
 Keys of the ordered key-value store: lexicographic key order, the
 prefix test the repository applies to every key, and the ascending
 enumeration of a key set that models the store's iterator.
 */
module Keys {

  /** Strict lexicographic order by character code, the store's default
      key order (byte-wise order of the UTF-8 encoding): a proper prefix
      sorts before its extensions. */
  predicate Below(a: string, b: string)
    decreases |a|
  {
    if |a| == 0 then |b| > 0
    else if |b| == 0 then false
    else a[0] < b[0] || (a[0] == b[0] && Below(a[1..], b[1..]))
  }

  lemma {:induction false} BelowIrreflexive(a: string)
    ensures !Below(a, a)
    decreases |a|
  {
    if |a| > 0 { BelowIrreflexive(a[1..]); }
  }

  lemma {:induction false} BelowAsymmetric(a: string, b: string)
    ensures Below(a, b) ==> !Below(b, a)
    decreases |a|
  {
    if |a| > 0 && |b| > 0 { BelowAsymmetric(a[1..], b[1..]); }
  }

  lemma {:induction false} BelowTransitive(a: string, b: string, c: string)
    requires Below(a, b) && Below(b, c)
    ensures Below(a, c)
    decreases |a|
  {
    if |a| > 0 && a[0] == b[0] && b[0] == c[0] {
      BelowTransitive(a[1..], b[1..], c[1..]);
    }
  }

  lemma {:induction false} BelowTotal(a: string, b: string)
    ensures a == b || Below(a, b) || Below(b, a)
    decreases |a|
  {
    if |a| > 0 && |b| > 0 && a[0] == b[0] {
      BelowTotal(a[1..], b[1..]);
      if a[1..] == b[1..] {
        assert a == [a[0]] + a[1..];
        assert b == [b[0]] + b[1..];
      }
    }
  }

  /** Two keys that share a prefix compare as their remainders do. */
  lemma {:induction false} BelowCommonPrefix(p: string, a: string, b: string)
    ensures Below(p + a, p + b) <==> Below(a, b)
    decreases |p|
  {
    if |p| > 0 {
      assert (p + a)[0] == p[0] == (p + b)[0];
      assert (p + a)[1..] == p[1..] + a;
      assert (p + b)[1..] == p[1..] + b;
      BelowCommonPrefix(p[1..], a, b);
    } else {
      assert p + a == a && p + b == b;
    }
  }

  /** Go's strings.HasPrefix. */
  predicate HasPrefix(s: string, prefix: string)
  {
    |prefix| <= |s| && s[..|prefix|] == prefix
  }

  /** A key has a prefix exactly when it is that prefix followed by the
      rest of the key. */
  lemma HasPrefixSplit(s: string, prefix: string, rest: string)
    ensures HasPrefix(prefix + rest, prefix)
    ensures HasPrefix(s, prefix) ==> s == prefix + s[|prefix|..]
  {
    assert (prefix + rest)[..|prefix|] == prefix;
  }

  /** The keys with a given prefix form one contiguous run in key order:
      a key between two of them has the prefix too. */
  lemma {:induction false} PrefixRunContiguous(prefix: string, a: string, b: string, c: string)
    requires HasPrefix(a, prefix) && HasPrefix(c, prefix)
    requires Below(a, b) && Below(b, c)
    ensures HasPrefix(b, prefix)
    decreases |prefix|
  {
    if |prefix| > 0 {
      assert a[0] == prefix[0] == c[0];
      assert a[1..][..|prefix| - 1] == prefix[1..];
      assert c[1..][..|prefix| - 1] == prefix[1..];
      PrefixRunContiguous(prefix[1..], a[1..], b[1..], c[1..]);
      assert b == [b[0]] + b[1..];
      assert prefix == [prefix[0]] + prefix[1..];
    }
  }

  predicate StrictlyAscending(s: seq<string>)
  {
    forall i, j :: 0 <= i < j < |s| ==> Below(s[i], s[j])
  }

  /** The last key of a strictly ascending sequence does not occur earlier. */
  lemma AscendingLastFresh(s: seq<string>)
    requires |s| > 0 && StrictlyAscending(s)
    ensures s[|s| - 1] !in s[..|s| - 1]
  {
    if s[|s| - 1] in s[..|s| - 1] {
      var i :| 0 <= i < |s| - 1 && s[i] == s[|s| - 1];
      BelowIrreflexive(s[i]);
    }
  }

  /** A strictly ascending sequence has no repeated key, so it has as many
      elements as the set of its elements. */
  lemma {:induction false} AscendingCardinality(s: seq<string>)
    requires StrictlyAscending(s)
    ensures |set k | k in s| == |s|
  {
    if s != [] {
      var init, last := s[..|s| - 1], s[|s| - 1];
      assert StrictlyAscending(init);
      AscendingCardinality(init);
      AscendingLastFresh(s);
      assert s == init + [last];
      assert (set k | k in s) == (set k | k in init) + {last};
    }
  }

  /** The only strictly ascending enumeration of a single key. */
  lemma AscendingSingleton(s: seq<string>, x: string)
    requires StrictlyAscending(s)
    requires forall k :: k in s <==> k == x
    ensures s == [x]
  {
    AscendingCardinality(s);
    assert (set k | k in s) == {x};
    assert s[0] in s;
  }

  predicate IsLeast(k: string, s: set<string>)
  {
    k in s && forall j :: j in s && j != k ==> Below(k, j)
  }

  lemma {:induction false} LeastExists(s: set<string>)
    requires s != {}
    ensures exists k :: IsLeast(k, s)
    decreases |s|
  {
    var x :| x in s;
    if s == {x} {
      assert IsLeast(x, s);
    } else {
      LeastExists(s - {x});
      var m :| IsLeast(m, s - {x});
      BelowTotal(m, x);
      if Below(m, x) {
        assert IsLeast(m, s);
      } else {
        forall j | j in s && j != x
          ensures Below(x, j)
        {
          if j != m { BelowTransitive(x, m, j); }
        }
        assert IsLeast(x, s);
      }
    }
  }

  lemma LeastUnique(s: set<string>)
    ensures forall a, b :: IsLeast(a, s) && IsLeast(b, s) ==> a == b
  {
    forall a, b | IsLeast(a, s) && IsLeast(b, s)
      ensures a == b
    {
      if a != b { BelowAsymmetric(a, b); }
    }
  }

  /** The least key of a non-empty key set. */
  function Least(s: set<string>): (k: string)
    requires s != {}
    ensures k in s
    ensures forall j :: j in s && j != k ==> Below(k, j)
  {
    LeastExists(s);
    LeastUnique(s);
    var k :| IsLeast(k, s);
    k
  }

  /** The keys of `s` in the order a store iterator visits them (see
      SortedKeysAscending). */
  function SortedKeys(s: set<string>): (r: seq<string>)
    ensures forall k :: k in r <==> k in s
    ensures |r| == |s|
    decreases s
  {
    if s == {} then []
    else
      var k := Least(s);
      [k] + SortedKeys(s - {k})
  }

  /** The iterator visits every key once, in ascending order. */
  lemma {:induction false} SortedKeysAscending(s: set<string>)
    ensures StrictlyAscending(SortedKeys(s))
    decreases s
  {
    if s != {} {
      var k := Least(s);
      var rest := SortedKeys(s - {k});
      SortedKeysAscending(s - {k});
      forall j | 0 <= j < |rest|
        ensures Below(k, rest[j])
      {
        assert rest[j] in s - {k};
      }
    }
  }
}
