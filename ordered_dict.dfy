/**
 * Python's insertion-ordered `dict` as a sequence of key/value pairs.
 * Setting a key that is present replaces its value where it stands; setting
 * a new key appends it. `dict(pairs)`, `d.update(e)` and a literal
 * `{..., **e}` all insert pairs one after another in order, which is `PutAll`.
 */
module OrderedDict {
  import opened Wrappers

  type Dict<V> = seq<(string, V)>

  function Keys<V>(d: Dict<V>): seq<string>
  {
    seq(|d|, i requires 0 <= i < |d| => d[i].0)
  }

  predicate Distinct<T(==)>(s: seq<T>)
  {
    forall i, j :: 0 <= i < j < |s| ==> s[i] != s[j]
  }

  /** A well-formed dictionary holds each key once. */
  predicate Valid<V>(d: Dict<V>)
  {
    Distinct(Keys(d))
  }

  /** The position of the first `x` in `s`. */
  function IndexOf<T(==)>(s: seq<T>, x: T): (r: Option<nat>)
    ensures r.None? <==> x !in s
    ensures r.Some? ==> r.value < |s| && s[r.value] == x && x !in s[..r.value]
  {
    if s == [] then None
    else if s[0] == x then Some(0)
    else match IndexOf(s[1..], x)
      case None => None
      case Some(i) =>
        assert s[..i + 1] == [s[0]] + s[1..][..i];
        Some(i + 1)
  }

  /** `d.get(k)`: the value stored under `k`, or `None` when `k` is absent. */
  function Get<V>(d: Dict<V>, k: string): (r: Option<V>)
    ensures r.None? <==> k !in Keys(d)
  {
    match IndexOf(Keys(d), k)
    case None => None
    case Some(i) => Some(d[i].1)
  }

  /** In a sequence of distinct elements the first index of `s[i]` is `i`. */
  lemma IndexOfDistinct<T>(s: seq<T>, i: nat)
    requires Distinct(s) && i < |s|
    ensures IndexOf(s, s[i]) == Some(i)
  {
  }

  /** Appending an element other than `x` leaves the first index of `x` alone. */
  lemma IndexOfAppend<T>(s: seq<T>, y: T, x: T)
    requires x != y
    ensures IndexOf(s + [y], x) == IndexOf(s, x)
  {
    assert forall m :: 0 <= m < |s| ==> (s + [y])[m] == s[m];
  }

  /** `d[k] = v`: replaces the value of a present key in place, or appends a new key at the end. */
  function Put<V>(d: Dict<V>, k: string, v: V): Dict<V>
  {
    match IndexOf(Keys(d), k)
    case Some(i) => d[i := (k, v)]
    case None => d + [(k, v)]
  }

  /**
   * Setting a key keeps a present key where it stands and appends a new one,
   * keeps the keys distinct, stores the value, and leaves the other keys alone.
   */
  lemma PutSpec<V>(d: Dict<V>, k: string, v: V)
    ensures Keys(Put(d, k, v)) == if k in Keys(d) then Keys(d) else Keys(d) + [k]
    ensures Valid(d) ==> Valid(Put(d, k, v))
    ensures Get(Put(d, k, v), k) == Some(v)
    ensures forall k' :: k' != k ==> Get(Put(d, k, v), k') == Get(d, k')
  {
    var r := Put(d, k, v);
    match IndexOf(Keys(d), k)
    case Some(i) =>
      assert Keys(r) == Keys(d);
    case None =>
      assert Keys(r) == Keys(d) + [k];
      forall k' | k' != k ensures Get(r, k') == Get(d, k') {
        IndexOfAppend(Keys(d), k, k');
      }
  }

  /** Inserting the pairs `ps` one after another, first to last. */
  function PutAll<V>(d: Dict<V>, ps: seq<(string, V)>): Dict<V>
  {
    if ps == [] then d
    else Put(PutAll(d, ps[..|ps| - 1]), ps[|ps| - 1].0, ps[|ps| - 1].1)
  }

  /** `dict(ps)`. */
  function FromPairs<V>(ps: seq<(string, V)>): Dict<V>
  {
    PutAll([], ps)
  }

  /** The value of the last pair in `ps` whose key is `k`. */
  function LastValue<V>(ps: seq<(string, V)>, k: string): (r: Option<V>)
    ensures r.None? <==> k !in Keys(ps)
  {
    if ps == [] then None
    else
      assert Keys(ps) == Keys(ps[..|ps| - 1]) + [ps[|ps| - 1].0];
      if ps[|ps| - 1].0 == k then Some(ps[|ps| - 1].1)
      else LastValue(ps[..|ps| - 1], k)
  }

  /**
   * `seen` followed by the elements of `xs` not seen before, in order of
   * first occurrence: the key order a dict ends with.
   */
  function AppendNew(seen: seq<string>, xs: seq<string>): (r: seq<string>)
    ensures |seen| <= |r| && r[..|seen|] == seen
    ensures forall x :: x in r <==> x in seen || x in xs
    ensures Distinct(seen) ==> Distinct(r)
  {
    if xs == [] then seen
    else
      var prev := AppendNew(seen, xs[..|xs| - 1]);
      assert xs == xs[..|xs| - 1] + [xs[|xs| - 1]];
      if xs[|xs| - 1] in prev then prev else prev + [xs[|xs| - 1]]
  }

  lemma KeysPrefix<V>(ps: seq<(string, V)>, n: nat)
    requires n <= |ps|
    ensures Keys(ps[..n]) == Keys(ps)[..n]
  {
  }

  /** The keys of a non-empty dictionary are those of all but its last pair, then the last pair's key. */
  lemma KeysSnoc<V>(ps: seq<(string, V)>)
    requires ps != []
    ensures Keys(ps) == Keys(ps[..|ps| - 1]) + [ps[|ps| - 1].0]
  {
  }

  /** Inserting pairs keeps every existing key where it is and appends the new keys in order of first occurrence. */
  lemma {:induction false} PutAllKeys<V>(d: Dict<V>, ps: seq<(string, V)>)
    ensures Keys(PutAll(d, ps)) == AppendNew(Keys(d), Keys(ps))
    ensures Valid(d) ==> Valid(PutAll(d, ps))
  {
    if ps != [] {
      var n := |ps| - 1;
      PutAllKeys(d, ps[..n]);
      KeysPrefix(ps, n);
      PutSpec(PutAll(d, ps[..n]), ps[n].0, ps[n].1);
    }
  }

  /** After inserting pairs, a key carries the value of its last pair, or its old value when no pair names it. */
  lemma {:induction false} PutAllGet<V>(d: Dict<V>, ps: seq<(string, V)>, k: string)
    ensures Get(PutAll(d, ps), k) == if k in Keys(ps) then LastValue(ps, k) else Get(d, k)
  {
    if ps != [] {
      var n := |ps| - 1;
      var prev := PutAll(d, ps[..n]);
      PutAllGet(d, ps[..n], k);
      KeysSnoc(ps);
      PutSpec(prev, ps[n].0, ps[n].1);
      if ps[n].0 == k {
        assert LastValue(ps, k) == Some(ps[n].1);
      } else {
        assert Get(PutAll(d, ps), k) == Get(prev, k);
        assert LastValue(ps, k) == LastValue(ps[..n], k);
      }
    }
  }

  /** Inserting `ps` and then one more pair is inserting `ps + [p]`. */
  lemma PutAllSnoc<V>(d: Dict<V>, ps: seq<(string, V)>, p: (string, V))
    ensures PutAll(d, ps + [p]) == Put(PutAll(d, ps), p.0, p.1)
  {
    assert (ps + [p])[..|ps|] == ps;
  }

  /** Inserting `a` and then `b` is inserting `a + b`. */
  lemma {:induction false} PutAllConcat<V>(d: Dict<V>, a: seq<(string, V)>, b: seq<(string, V)>)
    ensures PutAll(PutAll(d, a), b) == PutAll(d, a + b)
  {
    if b == [] {
      assert a + b == a;
    } else {
      var n := |b| - 1;
      var front, last := b[..n], b[n];
      assert b == front + [last];
      assert a + b == (a + front) + [last];
      PutAllConcat(d, a, front);
      PutAllSnoc(PutAll(d, a), front, last);
      PutAllSnoc(d, a + front, last);
    }
  }

  /** Collecting the new elements of a deduplicated sequence is the same as collecting those of the sequence itself. */
  lemma {:induction false} AppendNewOfDeduplicated(s: seq<string>, xs: seq<string>)
    ensures AppendNew(s, AppendNew([], xs)) == AppendNew(s, xs)
  {
    if xs != [] {
      var n := |xs| - 1;
      var x := xs[n];
      AppendNewOfDeduplicated(s, xs[..n]);
      var dd := AppendNew([], xs[..n]);
      if x !in dd {
        assert (dd + [x])[..|dd + [x]| - 1] == dd;
      }
    }
  }

  /** Collecting new elements of `a` and then of `b` is collecting those of `a + b`. */
  lemma {:induction false} AppendNewConcat(s: seq<string>, a: seq<string>, b: seq<string>)
    ensures AppendNew(AppendNew(s, a), b) == AppendNew(s, a + b)
  {
    if b == [] {
      assert a + b == a;
    } else {
      var n := |b| - 1;
      var front, last := b[..n], b[n];
      assert b == front + [last];
      assert a + b == (a + front) + [last];
      AppendNewConcat(s, a, front);
      AppendNewSnoc(AppendNew(s, a), front, last);
      AppendNewSnoc(s, a + front, last);
    }
  }

  /** Collecting new elements of `xs + [x]` collects those of `xs`, then `x` if it is still new. */
  lemma AppendNewSnoc(s: seq<string>, xs: seq<string>, x: string)
    ensures AppendNew(s, xs + [x]) == if x in AppendNew(s, xs) then AppendNew(s, xs) else AppendNew(s, xs) + [x]
  {
    assert (xs + [x])[..|xs|] == xs;
  }

  /** When `xs` is new and holds no repeats, collecting its new elements appends all of it. */
  lemma {:induction false} AppendNewFresh(s: seq<string>, xs: seq<string>)
    requires Distinct(s + xs)
    ensures AppendNew(s, xs) == s + xs
  {
    if xs != [] {
      var n := |xs| - 1;
      assert (s + xs)[..|s| + n] == s + xs[..n];
      AppendNewFresh(s, xs[..n]);
      assert (s + xs)[|s| + n] == xs[n];
      assert xs[n] !in s + xs[..n];
      assert xs == xs[..n] + [xs[n]];
    }
  }

  /** In a dictionary that holds each key once, the last pair with a key is its only pair. */
  lemma {:induction false} LastValueOfValid<V>(d: Dict<V>, k: string)
    requires Valid(d)
    ensures LastValue(d, k) == Get(d, k)
  {
    if d != [] {
      var n := |d| - 1;
      KeysPrefix(d, n);
      assert Keys(d) == Keys(d[..n]) + [d[n].0];
      LastValueOfValid(d[..n], k);
      if d[n].0 == k {
        IndexOfDistinct(Keys(d), n);
      } else {
        IndexOfAppend(Keys(d[..n]), d[n].0, k);
      }
    }
  }

  /** Two dictionaries with each key once, the same key order and the same lookups are equal. */
  lemma Extensionality<V>(a: Dict<V>, b: Dict<V>)
    requires Valid(a) && Valid(b) && Keys(a) == Keys(b)
    requires forall k :: Get(a, k) == Get(b, k)
    ensures a == b
  {
    forall i | 0 <= i < |a| ensures a[i] == b[i] {
      IndexOfDistinct(Keys(a), i);
      assert Get(a, a[i].0) == Some(a[i].1);
      assert Get(b, a[i].0) == Some(b[i].1);
    }
  }

  /** `d.update(dict(ps))` inserts exactly what inserting the pairs `ps` one by one inserts. */
  lemma {:induction false} UpdateWithDictOfPairs<V>(d: Dict<V>, ps: seq<(string, V)>)
    requires Valid(d)
    ensures PutAll(d, FromPairs(ps)) == PutAll(d, ps)
  {
    var e := FromPairs(ps);
    PutAllKeys([], ps);
    PutAllKeys(d, e);
    PutAllKeys(d, ps);
    AppendNewOfDeduplicated(Keys(d), Keys(ps));
    forall k ensures Get(PutAll(d, e), k) == Get(PutAll(d, ps), k) {
      PutAllGet(d, e, k);
      PutAllGet(d, ps, k);
      PutAllGet([], ps, k);
      LastValueOfValid(e, k);
    }
    Extensionality(PutAll(d, e), PutAll(d, ps));
  }
}
