/** Equality of finite maps and of slices, stated apart from what the maps and sequences hold. */
module MapFacts {
  lemma TakeSnoc<T>(q: seq<T>, i: nat)
    requires i < |q|
    ensures q[..i + 1] == q[..i] + [q[i]]
  {
  }

  lemma ConcatTail<T>(q: seq<T>, r: seq<T>, n: seq<T>, m: seq<T>)
    requires q != []
    ensures (q + r)[0] == q[0] && (q + r)[1..] == q[1..] + r && (q + r)[1..] + n == q[1..] + (r + n)
    ensures r + n + m == r + (n + m)
  {
  }

  /** Being a prefix is decided by the first elements and the rests. */
  lemma TailPrefix<T>(p: seq<T>, q: seq<T>)
    requires p != [] && q != [] && p[0] == q[0]
    ensures p <= q <==> p[1..] <= q[1..]
    ensures q <= p <==> q[1..] <= p[1..]
    ensures p < q <==> p[1..] < q[1..]
    ensures q < p <==> q[1..] < p[1..]
    ensures p <= q ==> q[1..][|p| - 1..] == q[|p|..]
  {
    assert p == [p[0]] + p[1..] && q == [q[0]] + q[1..];
  }

  lemma TakeAll<T>(q: seq<T>)
    ensures q[..|q|] == q && q[..0] == []
  {
  }

  lemma MapExt<K, V>(a: map<K, V>, b: map<K, V>)
    requires a.Keys == b.Keys
    requires forall k :: k in a ==> a[k] == b[k]
    ensures a == b
  {
  }

  lemma UnionIs<K, V>(a: map<K, V>, m: map<K, V>, r: map<K, V>)
    requires r.Keys == a.Keys + m.Keys
    requires forall k :: k in m ==> r[k] == m[k]
    requires forall k :: k in a && k !in m ==> r[k] == a[k]
    ensures a + m == r
  {
  }

  lemma UnionAssociative<K, V>(a: map<K, V>, b: map<K, V>, c: map<K, V>)
    ensures a + (b + c) == a + b + c
  {
  }

  lemma UnionEmpty<K, V>(m: map<K, V>, e: map<K, V>)
    requires e == map[]
    ensures m + e == m
  {
  }

  lemma ConcatEmpty<T>(s: seq<T>)
    ensures [] + s == s && s + [] == s
  {
  }

  lemma UpdateTwice<K, V>(m: map<K, V>, k: K, v: V, w: V)
    ensures m[k := v][k := w] == m[k := w]
  {
  }

  lemma UnionStep<K, V>(a: map<K, V>, m: map<K, V>, k: K)
    requires k in m
    ensures a[k := m[k]] + (m - {k}) == a + m
  {
  }

  lemma EmptyUnion<K, V>(e: map<K, V>, m: map<K, V>)
    requires e == map[]
    ensures e + m == m
  {
  }

  /** The map a without the keys that are gone, overridden by b. */
  function Over<K, V>(a: map<K, V>, gone: K -> bool, b: map<K, V>): map<K, V> {
    (map k | k in a && !gone(k) :: a[k]) + b
  }

  lemma OverTwice<K, V>(a: map<K, V>, gone: K -> bool, b: map<K, V>)
    ensures Over(Over(a, gone, b), gone, b) == Over(a, gone, b)
  {
    var l, r := Over(Over(a, gone, b), gone, b), Over(a, gone, b);
    assert l.Keys == r.Keys;
    MapExt(l, r);
  }

  lemma OverAssociative<K(!new), V>(a: map<K, V>, gone: K -> bool, b: map<K, V>, gone': K -> bool, c: map<K, V>,
                                    either: K -> bool)
    requires forall k :: either(k) <==> gone(k) || gone'(k)
    ensures Over(Over(a, gone, b), gone', c) == Over(a, either, Over(b, gone', c))
  {
    var l, r := Over(Over(a, gone, b), gone', c), Over(a, either, Over(b, gone', c));
    assert l.Keys == r.Keys;
    MapExt(l, r);
  }
}
