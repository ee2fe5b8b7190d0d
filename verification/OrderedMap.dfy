/** `std::map<std::string, V>` as the list of its entries in iteration order. */
module OrderedMap {
  import opened Text

  datatype Entry<+V> = Entry(key: string, value: V)

  type Entries<+V> = seq<Entry<V>>

  /** The byte-wise order of `std::string`. */
  predicate Less(a: string, b: string) {
    b != "" && (a == "" || a[0] < b[0] || (a[0] == b[0] && Less(a[1..], b[1..])))
  }

  /** It is the lexicographic one: the first character that differs decides, or the shorter comes first. */
  lemma LessIsLexicographic(a: string, b: string)
    ensures Less(a, b) <==> exists k: nat :: DiffersAt(a, b, k)
  {
    if a != "" && b != "" && a[0] == b[0] {
      LessIsLexicographic(a[1..], b[1..]);
      forall k: nat ensures DiffersAt(a[1..], b[1..], k) <==> DiffersAt(a, b, k + 1) { DiffersBehind(a, b, k); }
      assert !DiffersAt(a, b, 0);
      if k: nat :| DiffersAt(a, b, k) { assert DiffersAt(a[1..], b[1..], k - 1); }
    } else if a != "" && b != "" {
      assert DiffersAt(a, b, 0) <==> a[0] < b[0];
      forall k: nat | k > 0 ensures !DiffersAt(a, b, k) { if k <= |a| && k <= |b| { assert a[..k][0] != b[..k][0]; } }
    } else {
      assert DiffersAt(a, b, 0) <==> Less(a, b);
    }
  }

  /** The texts agree in their first `k` characters, and there `a` ends or has the smaller one. */
  predicate DiffersAt(a: string, b: string, k: nat) {
    k <= |a| && k < |b| && a[..k] == b[..k] && (k == |a| || a[k] < b[k])
  }

  lemma DiffersBehind(a: string, b: string, k: nat)
    requires a != "" && b != "" && a[0] == b[0]
    ensures DiffersAt(a[1..], b[1..], k) <==> DiffersAt(a, b, k + 1)
  {
    if k < |a| && k < |b| {
      assert a[..k + 1] == [a[0]] + a[1..][..k] && b[..k + 1] == [b[0]] + b[1..][..k];
      assert a[..k + 1][1..] == a[1..][..k] && b[..k + 1][1..] == b[1..][..k];
    }
  }

  lemma LessIsTotal(a: string, b: string)
    ensures a == b || Less(a, b) || Less(b, a)
  {
    if a != "" && b != "" && a[0] == b[0] {
      LessIsTotal(a[1..], b[1..]);
      assert a[1..] == b[1..] ==> [a[0]] + a[1..] == [b[0]] + b[1..];
    }
  }

  lemma LessIsTransitive(a: string, b: string, c: string)
    requires Less(a, b) && Less(b, c)
    ensures Less(a, c)
  {
    if a != "" && a[0] == b[0] == c[0] {
      LessIsTransitive(a[1..], b[1..], c[1..]);
    }
  }

  lemma LessIsIrreflexive(a: string)
    ensures !Less(a, a)
  {
  }

  ghost predicate Sorted<V>(m: Entries<V>) {
    forall i, j :: 0 <= i < j < |m| ==> Less(m[i].key, m[j].key)
  }

  /** `m.find(k)`. */
  function Lookup<V>(m: Entries<V>, k: string): (r: Option<V>)
    ensures r.Some? ==> Entry(k, r.value) in m
    ensures r.None? ==> forall e <- m :: e.key != k
  {
    if m == [] then None
    else if m[0].key == k then Some(m[0].value)
    else Lookup(m[1..], k)
  }

  /** `m.emplace(k, v)`: an entry already present stays. */
  function Emplace<V>(m: Entries<V>, k: string, v: V): Entries<V> {
    if m == [] then [Entry(k, v)]
    else if m[0].key == k then m
    else if Less(k, m[0].key) then [Entry(k, v)] + m
    else [m[0]] + Emplace(m[1..], k, v)
  }

  /** `m[k] = v`: an entry already present is overwritten. */
  function Assign<V>(m: Entries<V>, k: string, v: V): Entries<V> {
    if m == [] then [Entry(k, v)]
    else if m[0].key == k then [Entry(k, v)] + m[1..]
    else if Less(k, m[0].key) then [Entry(k, v)] + m
    else [m[0]] + Assign(m[1..], k, v)
  }

  lemma {:induction false} LookupIs<V>(m: Entries<V>, i: nat)
    requires Sorted(m) && i < |m|
    ensures Lookup(m, m[i].key) == Some(m[i].value)
  {
    LessIsIrreflexive(m[i].key);
    if i > 0 {
      assert Less(m[0].key, m[i].key);
      LookupIs(m[1..], i - 1);
    }
  }

  lemma {:induction false} EmplaceKeepsSorted<V>(m: Entries<V>, k: string, v: V)
    requires Sorted(m)
    ensures Sorted(Emplace(m, k, v))
    ensures forall e <- Emplace(m, k, v) :: e in m || e == Entry(k, v)
    ensures forall q :: Lookup(Emplace(m, k, v), q) ==
                        if q == k && Lookup(m, k).None? then Some(v) else Lookup(m, q)
  {
    if m != [] && m[0].key != k {
      if Less(k, m[0].key) {
        forall i | 0 <= i < |m| ensures Less(k, m[i].key) {
          if i > 0 { LessIsTransitive(k, m[0].key, m[i].key); }
        }
        assert Lookup(m, k).None? by { forall e <- m ensures e.key != k { LessIsIrreflexive(k); } }
      } else {
        EmplaceKeepsSorted(m[1..], k, v);
        LessIsTotal(k, m[0].key);
        var r := Emplace(m[1..], k, v);
        forall i | 0 <= i < |r| ensures Less(m[0].key, r[i].key) { assert r[i] in r; }
      }
    }
  }

  lemma {:induction false} AssignKeepsSorted<V>(m: Entries<V>, k: string, v: V)
    requires Sorted(m)
    ensures Sorted(Assign(m, k, v))
    ensures forall e <- Assign(m, k, v) :: e in m || e == Entry(k, v)
    ensures forall q :: Lookup(Assign(m, k, v), q) == if q == k then Some(v) else Lookup(m, q)
  {
    if m != [] && m[0].key != k {
      if Less(k, m[0].key) {
        forall i | 0 <= i < |m| ensures Less(k, m[i].key) {
          if i > 0 { LessIsTransitive(k, m[0].key, m[i].key); }
        }
      } else {
        AssignKeepsSorted(m[1..], k, v);
        LessIsTotal(k, m[0].key);
        var r := Assign(m[1..], k, v);
        forall i | 0 <= i < |r| ensures Less(m[0].key, r[i].key) { assert r[i] in r; }
      }
    }
  }

  /** Inserting a key above all others appends. */
  lemma {:induction false} InsertAbove<V>(m: Entries<V>, k: string, v: V)
    requires forall e <- m :: Less(e.key, k)
    ensures Emplace(m, k, v) == Assign(m, k, v) == m + [Entry(k, v)]
  {
    if m != [] {
      assert m[0] in m;
      assert !Less(k, m[0].key) && m[0].key != k by {
        LessIsIrreflexive(k);
        if Less(k, m[0].key) { LessIsTransitive(k, m[0].key, k); }
      }
      InsertAbove(m[1..], k, v);
      assert [m[0]] + (m[1..] + [Entry(k, v)]) == m + [Entry(k, v)];
    }
  }
}
