/**
 * The JavaScript objects and `Map`s the core builds and takes apart, as the
 * list of their own string-keyed properties in creation order.
 *
 * A `Map` and `Object.fromEntries` put entries in order: a new key is
 * appended, a key that is already present keeps its slot and takes the new
 * value (`Put`, `FromEntries`). `Object.entries` and object spread list the
 * properties in the order of the language's OrdinaryOwnPropertyKeys
 * (section 10.1.11.1 of ECMAScript 2023): the keys that are array indices
 * first, in ascending numeric order, then every other key in creation order
 * (`Entries`).
 */
module JsObjects {
  import opened Wrappers

  /** Own properties (or `Map` entries) in creation order. */
  type Props<V> = seq<(string, V)>

  /** The keys of `p`, in order. */
  function Keys<V>(p: Props<V>): (ks: seq<string>)
    ensures |ks| == |p|
    ensures forall i :: 0 <= i < |p| ==> ks[i] == p[i].0
  {
    if p == [] then [] else [p[0].0] + Keys(p[1..])
  }

  predicate Distinct(ks: seq<string>)
  {
    forall i, j :: 0 <= i < j < |ks| ==> ks[i] != ks[j]
  }

  /** No key occurs twice: what every object and `Map` satisfies. */
  predicate UniqueKeys<V>(p: Props<V>)
  {
    Distinct(Keys(p))
  }

  /** The value of property `k`, or `None` when `p` has no such property. */
  function Get<V>(p: Props<V>, k: string): (r: Option<V>)
    ensures r.None? <==> k !in Keys(p)
  {
    if p == [] then None
    else if p[0].0 == k then Some(p[0].1)
    else Get(p[1..], k)
  }

  /** A key that occurs more than once is read from its first occurrence. */
  lemma {:induction false} GetFirst<V>(p: Props<V>, k: string, i: nat)
    requires i < |p| && p[i].0 == k
    requires forall j :: 0 <= j < i ==> p[j].0 != k
    ensures Get(p, k) == Some(p[i].1)
  {
    if i > 0 {
      GetFirst(p[1..], k, i - 1);
    }
  }

  /**
   * Setting property `k` to `v` (`map.set(k, v)`, or defining a data
   * property): an existing key keeps its position, a new key goes last.
   */
  function Put<V>(p: Props<V>, k: string, v: V): (r: Props<V>)
    ensures Keys(r) == if k in Keys(p) then Keys(p) else Keys(p) + [k]
    ensures Get(r, k) == Some(v)
    ensures forall k' :: k' != k ==> Get(r, k') == Get(p, k')
  {
    if p == [] then [(k, v)]
    else if p[0].0 == k then [(k, v)] + p[1..]
    else
      var rest := Put(p[1..], k, v);
      assert Keys(p) == [p[0].0] + Keys(p[1..]);
      assert Keys([p[0]] + rest) == [p[0].0] + Keys(rest);
      assert ([p[0]] + rest)[1..] == rest;
      [p[0]] + rest
  }

  /** The keys of `ks` in the order of their first occurrence. */
  function Dedup(ks: seq<string>): (d: seq<string>)
    ensures Distinct(d)
    ensures forall k :: k in d <==> k in ks
  {
    if ks == [] then []
    else
      var d := Dedup(ks[..|ks| - 1]);
      assert ks == ks[..|ks| - 1] + [ks[|ks| - 1]];
      if ks[|ks| - 1] in d then d else d + [ks[|ks| - 1]]
  }

  /** The value of the last entry of `es` whose key is `k`. */
  function LastValue<V>(es: Props<V>, k: string): (r: Option<V>)
    ensures r.Some? ==> (k, r.value) in es
  {
    if es == [] then None
    else if es[|es| - 1].0 == k then Some(es[|es| - 1].1)
    else LastValue(es[..|es| - 1], k)
  }

  /**
   * `new Map(es)` and `Object.fromEntries(es)`: the entries are put one after
   * the other, so every key occurs once, in the position of its first
   * occurrence, with the value of its last one.
   */
  function FromEntries<V>(es: Props<V>): (r: Props<V>)
    ensures UniqueKeys(r)
    ensures Keys(r) == Dedup(Keys(es))
    ensures forall k :: Get(r, k) == LastValue(es, k)
  {
    if es == [] then []
    else
      var init := es[..|es| - 1];
      var last := es[|es| - 1];
      var ks := Keys(es);
      assert ks[..|es| - 1] == Keys(init) && ks[|es| - 1] == last.0;
      var r0 := FromEntries(init);
      assert Dedup(ks) == if last.0 in Dedup(Keys(init)) then Dedup(Keys(init))
                          else Dedup(Keys(init)) + [last.0];
      Put(r0, last.0, last.1)
  }

  /** The entries after a put are the entry put and entries that were there. */
  lemma {:induction false} PutMembers<V>(p: Props<V>, k: string, v: V)
    ensures forall e :: e in Put(p, k, v) ==> e == (k, v) || e in p
  {
    if p != [] && p[0].0 != k {
      PutMembers(p[1..], k, v);
      assert Put(p, k, v) == [p[0]] + Put(p[1..], k, v);
    }
  }

  /** Every property `FromEntries` builds is one of the entries it was given. */
  lemma FromEntriesMembers<V>(es: Props<V>)
    ensures forall e :: e in FromEntries(es) ==> e in es
  {
    var r := FromEntries(es);
    forall e | e in r ensures e in es {
      GetMember(r, e.0, e.1);
    }
  }

  /** Two objects with the same keys in the same order and the same values are equal. */
  lemma SameKeysSameValues<V>(p: Props<V>, q: Props<V>)
    requires Keys(p) == Keys(q) && UniqueKeys(p)
    requires forall k :: Get(p, k) == Get(q, k)
    ensures p == q
  {
    forall i | 0 <= i < |p| ensures p[i] == q[i] {
      GetMember(p, p[i].0, p[i].1);
      assert Keys(p)[i] == Keys(q)[i];
      GetMember(q, q[i].0, q[i].1);
    }
  }

  /** Putting a key that is not there appends it. */
  lemma {:induction false} PutNew<V>(p: Props<V>, k: string, v: V)
    requires k !in Keys(p)
    ensures Put(p, k, v) == p + [(k, v)]
  {
    if p != [] {
      var t := p[1..];
      assert p[0].0 != k && k !in Keys(t) by {
        assert Keys(p) == [p[0].0] + Keys(t);
      }
      PutNew(t, k, v);
      assert Put(p, k, v) == [p[0]] + Put(t, k, v);
      ConsSnoc(p, (k, v));
    }
  }

  lemma ConsSnoc<T>(p: seq<T>, y: T)
    requires |p| >= 1
    ensures [p[0]] + (p[1..] + [y]) == p + [y]
  {
    assert [p[0]] + p[1..] == p;
  }

  /** Putting the value a key already has changes nothing. */
  lemma {:induction false} PutSame<V>(p: Props<V>, k: string, v: V)
    requires Get(p, k) == Some(v)
    ensures Put(p, k, v) == p
  {
    if p != [] && p[0].0 != k {
      PutSame(p[1..], k, v);
      assert p == [p[0]] + p[1..];
    }
  }

  /** Entries whose keys are already distinct come out of `FromEntries` as they went in. */
  lemma {:induction false} FromEntriesOfUnique<V>(es: Props<V>)
    requires UniqueKeys(es)
    ensures FromEntries(es) == es
  {
    if es != [] {
      var init := es[..|es| - 1];
      var last := es[|es| - 1];
      assert es == init + [last];
      var ks := Keys(es);
      assert Keys(init) == ks[..|es| - 1];
      assert last.0 == ks[|es| - 1];
      assert last.0 !in Keys(init);
      FromEntriesOfUnique(init);
      PutNew(init, last.0, last.1);
      assert FromEntries(es) == Put(FromEntries(init), last.0, last.1);
    }
  }

  /** In an object, `Get` finds exactly the entries it holds. */
  lemma {:induction false} GetMember<V>(p: Props<V>, k: string, v: V)
    requires UniqueKeys(p)
    ensures Get(p, k) == Some(v) <==> (k, v) in p
  {
    if p != [] {
      assert Keys(p[1..]) == Keys(p)[1..];
      GetMember(p[1..], k, v);
    }
  }

  /** A key occurs in `p` exactly when some entry carries it. */
  lemma KeyMember<V>(p: Props<V>, k: string)
    ensures k in Keys(p) <==> exists v :: (k, v) in p
  {
    if k in Keys(p) {
      var i :| 0 <= i < |p| && Keys(p)[i] == k;
      assert (k, p[i].1) in p;
    }
  }

  /** Two listings of the same entries have the same keys. */
  lemma PermutationKeys<V>(q: Props<V>, r: Props<V>)
    requires multiset(q) == multiset(r)
    ensures forall k :: k in Keys(q) <==> k in Keys(r)
  {
    forall k | k in Keys(q) ensures k in Keys(r) {
      KeyMember(q, k);
      var v :| (k, v) in q;
      assert (k, v) in multiset(r);
      KeyMember(r, k);
    }
    forall k | k in Keys(r) ensures k in Keys(q) {
      KeyMember(r, k);
      var v :| (k, v) in r;
      assert (k, v) in multiset(q);
      KeyMember(q, k);
    }
  }

  // ----- array-index keys and their numeric order -----

  predicate IsDigit(c: char)
  {
    '0' <= c <= '9'
  }

  predicate AllDigits(s: string)
  {
    forall i :: 0 <= i < |s| ==> IsDigit(s[i])
  }

  function Pow10(n: nat): (p: nat)
    ensures p >= 1
  {
    if n == 0 then 1 else 10 * Pow10(n - 1)
  }

  /** The number a string of decimal digits denotes. */
  function DecimalValue(s: string): (n: nat)
    requires AllDigits(s)
    ensures n < Pow10(|s|)
  {
    if s == [] then 0
    else
      var d, p, r := s[0] as int - '0' as int, Pow10(|s| - 1), DecimalValue(s[1..]);
      LeadingDigitBound(d, p, r);
      d * p + r
  }

  lemma MulMonotone(a: int, b: int, c: nat)
    requires a <= b
    ensures a * c <= b * c
  {
  }

  /** A leading digit `d` before a tail below `p` stays below `10 * p`. */
  lemma LeadingDigitBound(d: int, p: nat, r: nat)
    requires 0 <= d <= 9 && r < p
    ensures 0 <= d * p + r < 10 * p
  {
    assert d * p <= 9 * p;
  }

  /**
   * A key that is an array index: the canonical decimal form (no sign, no
   * leading zero) of an integer below 2^32 - 1.
   */
  predicate IsArrayIndex(k: string)
  {
    && |k| >= 1
    && AllDigits(k)
    && (k[0] == '0' ==> |k| == 1)
    && DecimalValue(k) < 0xFFFF_FFFF
  }

  /** Lexicographic order on strings of equal length. */
  predicate LexLess(a: string, b: string)
    requires |a| == |b|
  {
    |a| > 0 && (a[0] < b[0] || (a[0] == b[0] && LexLess(a[1..], b[1..])))
  }

  /**
   * The order in which array-index keys are listed: shorter first, then
   * lexicographic. On canonical decimal strings this is the numeric order
   * (`IndexOrderIsNumeric`).
   */
  predicate IndexLess(a: string, b: string)
  {
    |a| < |b| || (|a| == |b| && LexLess(a, b))
  }

  lemma {:induction false} LexLessNumeric(a: string, b: string)
    requires |a| == |b| && AllDigits(a) && AllDigits(b)
    ensures LexLess(a, b) <==> DecimalValue(a) < DecimalValue(b)
  {
    if |a| > 0 {
      var p := Pow10(|a| - 1);
      var da, db := a[0] as int - '0' as int, b[0] as int - '0' as int;
      var ra, rb := DecimalValue(a[1..]), DecimalValue(b[1..]);
      assert DecimalValue(a) == da * p + ra;
      assert DecimalValue(b) == db * p + rb;
      assert ra < p && rb < p;
      if da < db {
        MulMonotone(da + 1, db, p);
        assert (da + 1) * p == da * p + p;
      } else if db < da {
        MulMonotone(db + 1, da, p);
        assert (db + 1) * p == db * p + p;
      } else {
        LexLessNumeric(a[1..], b[1..]);
      }
    }
  }

  lemma {:induction false} Pow10Monotone(m: nat, n: nat)
    requires m <= n
    ensures Pow10(m) <= Pow10(n)
  {
    if m < n {
      Pow10Monotone(m, n - 1);
    }
  }

  /** Listing array-index keys in `IndexLess` order lists them in ascending numeric order. */
  lemma IndexOrderIsNumeric(a: string, b: string)
    requires IsArrayIndex(a) && IsArrayIndex(b)
    ensures IndexLess(a, b) <==> DecimalValue(a) < DecimalValue(b)
  {
    if |a| == |b| {
      LexLessNumeric(a, b);
    } else if |a| < |b| {
      Pow10Monotone(|a|, |b| - 1);
      MulMonotone(1, b[0] as int - '0' as int, Pow10(|b| - 1));
    } else {
      Pow10Monotone(|b|, |a| - 1);
      MulMonotone(1, a[0] as int - '0' as int, Pow10(|a| - 1));
    }
  }

  lemma {:induction false} LexLessIrreflexive(a: string)
    ensures !LexLess(a, a)
  {
    if |a| > 0 {
      LexLessIrreflexive(a[1..]);
    }
  }

  lemma {:induction false} LexLessTransitive(a: string, b: string, c: string)
    requires |a| == |b| == |c| && LexLess(a, b) && LexLess(b, c)
    ensures LexLess(a, c)
  {
    if a[0] == b[0] && b[0] == c[0] {
      LexLessTransitive(a[1..], b[1..], c[1..]);
    }
  }

  lemma {:induction false} LexLessTotal(a: string, b: string)
    requires |a| == |b| && a != b
    ensures LexLess(a, b) || LexLess(b, a)
  {
    if a[0] == b[0] {
      assert a == [a[0]] + a[1..] && b == [b[0]] + b[1..];
      LexLessTotal(a[1..], b[1..]);
    }
  }

  lemma IndexLessIrreflexive(a: string)
    ensures !IndexLess(a, a)
  {
    LexLessIrreflexive(a);
  }

  lemma IndexLessTransitive(a: string, b: string, c: string)
    requires IndexLess(a, b) && IndexLess(b, c)
    ensures IndexLess(a, c)
  {
    if |a| == |b| == |c| {
      LexLessTransitive(a, b, c);
    }
  }

  lemma IndexLessTotal(a: string, b: string)
    requires a != b
    ensures IndexLess(a, b) || IndexLess(b, a)
  {
    if |a| == |b| {
      LexLessTotal(a, b);
    }
  }

  // ----- sorting the array-index entries -----

  /** Keys strictly ascending in `IndexLess` order. */
  predicate Ascending<V>(p: Props<V>)
  {
    forall i, j :: 0 <= i < j < |p| ==> IndexLess(p[i].0, p[j].0)
  }

  function Insert<V>(e: (string, V), s: Props<V>): Props<V>
  {
    if s == [] || IndexLess(e.0, s[0].0) then [e] + s
    else [s[0]] + Insert(e, s[1..])
  }

  function SortByIndex<V>(p: Props<V>): Props<V>
  {
    if p == [] then [] else Insert(p[0], SortByIndex(p[1..]))
  }

  lemma {:induction false} InsertSorted<V>(e: (string, V), s: Props<V>)
    requires Ascending(s) && e.0 !in Keys(s)
    ensures multiset(Insert(e, s)) == multiset(s) + multiset{e}
    ensures Ascending(Insert(e, s))
  {
    InsertPermutes(e, s);
    InsertAscending(e, s);
  }

  lemma {:induction false} InsertPermutes<V>(e: (string, V), s: Props<V>)
    ensures multiset(Insert(e, s)) == multiset(s) + multiset{e}
  {
    if s != [] && !IndexLess(e.0, s[0].0) {
      InsertPermutes(e, s[1..]);
      assert s == [s[0]] + s[1..];
    }
  }

  lemma {:induction false} InsertAscending<V>(e: (string, V), s: Props<V>)
    requires Ascending(s) && e.0 !in Keys(s)
    ensures Ascending(Insert(e, s))
  {
    if s == [] {
    } else if IndexLess(e.0, s[0].0) {
      forall j | 0 <= j < |s| ensures IndexLess(e.0, s[j].0) {
        if j > 0 {
          IndexLessTransitive(e.0, s[0].0, s[j].0);
        }
      }
      AscendingCons(e, s);
    } else {
      var tail := s[1..];
      assert Keys(tail) == Keys(s)[1..];
      assert Ascending(tail);
      InsertAscending(e, tail);
      InsertPermutes(e, tail);
      var r := Insert(e, tail);
      assert s[0].0 != e.0 by { assert Keys(s)[0] == s[0].0; }
      IndexLessTotal(e.0, s[0].0);
      forall j | 0 <= j < |r| ensures IndexLess(s[0].0, r[j].0) {
        assert r[j] in multiset(r);
        if r[j] != e {
          assert r[j] in multiset(tail);
          var k :| 0 <= k < |tail| && tail[k] == r[j];
          assert IndexLess(s[0].0, s[k + 1].0);
        }
      }
      AscendingCons(s[0], r);
    }
  }

  lemma AscendingCons<V>(x: (string, V), r: Props<V>)
    requires Ascending(r)
    requires forall j :: 0 <= j < |r| ==> IndexLess(x.0, r[j].0)
    ensures Ascending([x] + r)
  {
    var t := [x] + r;
    forall i, j | 0 <= i < j < |t| ensures IndexLess(t[i].0, t[j].0) {
      assert t[j] == r[j - 1];
      if i > 0 {
        assert t[i] == r[i - 1];
      }
    }
  }

  lemma {:induction false} SortByIndexSorts<V>(p: Props<V>)
    requires UniqueKeys(p)
    ensures multiset(SortByIndex(p)) == multiset(p)
    ensures Ascending(SortByIndex(p))
  {
    if p != [] {
      assert Keys(p[1..]) == Keys(p)[1..];
      SortByIndexSorts(p[1..]);
      var s := SortByIndex(p[1..]);
      assert p[0].0 !in Keys(p[1..]) by {
        assert Keys(p)[0] == p[0].0;
      }
      PermutationKeys(s, p[1..]);
      InsertSorted(p[0], s);
      assert p == [p[0]] + p[1..];
    }
  }

  lemma {:induction false} SortAscending<V>(s: Props<V>)
    requires Ascending(s)
    ensures SortByIndex(s) == s
  {
    if s != [] {
      SortAscending(s[1..]);
      assert s == [s[0]] + s[1..];
    }
  }

  // ----- Object.entries -----

  /** The entries whose keys are array indices, in creation order. */
  function IndexEntries<V>(p: Props<V>): Props<V>
  {
    if p == [] then []
    else (if IsArrayIndex(p[0].0) then [p[0]] else []) + IndexEntries(p[1..])
  }

  /** The entries whose keys are not array indices, in creation order. */
  function NamedEntries<V>(p: Props<V>): Props<V>
  {
    if p == [] then []
    else (if IsArrayIndex(p[0].0) then [] else [p[0]]) + NamedEntries(p[1..])
  }

  /**
   * `Object.entries(o)`, and the order in which `{...o}` copies `o`: the
   * array-index properties first, ascending, then the others in creation order.
   */
  function Entries<V>(p: Props<V>): Props<V>
  {
    SortByIndex(IndexEntries(p)) + NamedEntries(p)
  }

  lemma {:induction false} FilterMembers<V>(p: Props<V>)
    ensures forall e :: e in IndexEntries(p) ==> e in p && IsArrayIndex(e.0)
    ensures forall e :: e in NamedEntries(p) ==> e in p && !IsArrayIndex(e.0)
  {
    if p != [] {
      FilterMembers(p[1..]);
    }
  }

  lemma FiltersAppend<V>(a: Props<V>, b: Props<V>)
    ensures IndexEntries(a + b) == IndexEntries(a) + IndexEntries(b)
    ensures NamedEntries(a + b) == NamedEntries(a) + NamedEntries(b)
  {
    IndexAppend(a, b);
    NamedAppend(a, b);
  }

  lemma {:induction false} IndexAppend<V>(a: Props<V>, b: Props<V>)
    ensures IndexEntries(a + b) == IndexEntries(a) + IndexEntries(b)
  {
    if a == [] {
      assert a + b == b;
    } else {
      var h, t := if IsArrayIndex(a[0].0) then [a[0]] else [], a[1..];
      assert IndexEntries(a + b) == h + IndexEntries(t + b) by {
        assert (a + b)[0] == a[0] && (a + b)[1..] == t + b;
      }
      IndexAppend(t, b);
      assert IndexEntries(a) == h + IndexEntries(t);
      assert h + (IndexEntries(t) + IndexEntries(b)) == (h + IndexEntries(t)) + IndexEntries(b);
    }
  }

  lemma {:induction false} NamedAppend<V>(a: Props<V>, b: Props<V>)
    ensures NamedEntries(a + b) == NamedEntries(a) + NamedEntries(b)
  {
    if a == [] {
      assert a + b == b;
    } else {
      var h, t := if IsArrayIndex(a[0].0) then [] else [a[0]], a[1..];
      assert NamedEntries(a + b) == h + NamedEntries(t + b) by {
        assert (a + b)[0] == a[0] && (a + b)[1..] == t + b;
      }
      NamedAppend(t, b);
      assert NamedEntries(a) == h + NamedEntries(t);
      assert h + (NamedEntries(t) + NamedEntries(b)) == (h + NamedEntries(t)) + NamedEntries(b);
    }
  }

  lemma KeysCons<V>(e: (string, V), q: Props<V>)
    ensures Keys([e] + q) == [e.0] + Keys(q)
  {
  }

  lemma DistinctCons(x: string, ks: seq<string>)
    requires Distinct(ks) && x !in ks
    ensures Distinct([x] + ks)
  {
  }

  lemma {:induction false} FiltersSplit<V>(p: Props<V>)
    ensures multiset(IndexEntries(p)) + multiset(NamedEntries(p)) == multiset(p)
  {
    if p != [] {
      FiltersSplit(p[1..]);
      assert p == [p[0]] + p[1..];
    }
  }

  lemma {:induction false} FilterKeepsDistinct<V>(p: Props<V>)
    requires UniqueKeys(p)
    ensures UniqueKeys(IndexEntries(p)) && UniqueKeys(NamedEntries(p))
  {
    if p != [] {
      var rest := p[1..];
      assert Keys(rest) == Keys(p)[1..];
      assert p[0].0 !in Keys(rest);
      FilterKeepsDistinct(rest);
      var i, n := IndexEntries(rest), NamedEntries(rest);
      FilterMembers(rest);
      KeyMember(rest, p[0].0);
      KeyMember(i, p[0].0);
      KeyMember(n, p[0].0);
      KeysCons(p[0], i);
      KeysCons(p[0], n);
      if IsArrayIndex(p[0].0) {
        DistinctCons(p[0].0, Keys(i));
      } else {
        DistinctCons(p[0].0, Keys(n));
      }
    }
  }

  /** Only array-index entries pass the index filter, and only the others the named one. */
  lemma {:induction false} FilterAll<V>(p: Props<V>)
    ensures (forall e :: e in p ==> IsArrayIndex(e.0)) ==> IndexEntries(p) == p && NamedEntries(p) == []
    ensures (forall e :: e in p ==> !IsArrayIndex(e.0)) ==> NamedEntries(p) == p && IndexEntries(p) == []
  {
    if p != [] {
      FilterAll(p[1..]);
      assert p == [p[0]] + p[1..];
    }
  }

  /** `Object.entries` lists each property once, with its value. */
  lemma EntriesPermutes<V>(p: Props<V>)
    requires UniqueKeys(p)
    ensures multiset(Entries(p)) == multiset(p)
    ensures UniqueKeys(Entries(p))
    ensures Ascending(SortByIndex(IndexEntries(p)))
  {
    var ie := IndexEntries(p);
    var a, n := SortByIndex(ie), NamedEntries(p);
    assert Entries(p) == a + n;
    FilterKeepsDistinct(p);
    SortByIndexSorts(ie);
    assert multiset(a + n) == multiset(p) by {
      FiltersSplit(p);
    }
    assert UniqueKeys(a + n) by {
      AscendingUnique(a);
      SortedIsIndexed(p);
      FilterMembers(p);
      AppendUnique(a, n);
    }
  }

  lemma AscendingUnique<V>(a: Props<V>)
    requires Ascending(a)
    ensures UniqueKeys(a)
  {
    var ks := Keys(a);
    forall i, j | 0 <= i < j < |ks| ensures ks[i] != ks[j] {
      IndexLessIrreflexive(a[i].0);
    }
  }

  /** The sorted index entries all have array-index keys. */
  lemma SortedIsIndexed<V>(p: Props<V>)
    requires UniqueKeys(p)
    ensures forall e :: e in SortByIndex(IndexEntries(p)) ==> IsArrayIndex(e.0)
  {
    var ie := IndexEntries(p);
    FilterKeepsDistinct(p);
    SortByIndexSorts(ie);
    FilterMembers(p);
    forall e | e in SortByIndex(ie) ensures IsArrayIndex(e.0) {
      assert e in multiset(ie);
    }
  }

  /** Index-keyed entries followed by other entries, each without repeats, have no repeated key. */
  lemma AppendUnique<V>(a: Props<V>, n: Props<V>)
    requires UniqueKeys(a) && UniqueKeys(n)
    requires forall e :: e in a ==> IsArrayIndex(e.0)
    requires forall e :: e in n ==> !IsArrayIndex(e.0)
    ensures UniqueKeys(a + n)
  {
    var ks, ka, kn := Keys(a + n), Keys(a), Keys(n);
    forall i, j | 0 <= i < j < |ks| ensures ks[i] != ks[j] {
      if j < |a| {
        assert ks[i] == ka[i] && ks[j] == ka[j];
      } else if i >= |a| {
        assert ks[i] == kn[i - |a|] && ks[j] == kn[j - |a|];
      } else {
        assert IsArrayIndex(ks[i]) by {
          assert (a + n)[i] == a[i] && a[i] in a;
        }
        assert !IsArrayIndex(ks[j]) by {
          assert (a + n)[j] == n[j - |a|] && n[j - |a|] in n;
        }
      }
    }
  }

  /** `Object.entries` reports the same value for every key as the object holds. */
  lemma EntriesGet<V>(p: Props<V>, k: string)
    requires UniqueKeys(p)
    ensures Get(Entries(p), k) == Get(p, k)
  {
    var e := Entries(p);
    EntriesPermutes(p);
    match Get(p, k)
    case Some(v) =>
      GetMember(p, k, v);
      assert (k, v) in multiset(e);
      GetMember(e, k, v);
    case None =>
      PermutationKeys(p, e);
  }

  /**
   * The listing order: the array-index entries come first, ascending in
   * numeric order, and the other entries follow in creation order.
   */
  lemma EntriesOrder<V>(p: Props<V>)
    requires UniqueKeys(p)
    ensures Entries(p) == IndexEntries(Entries(p)) + NamedEntries(Entries(p))
    ensures Ascending(IndexEntries(Entries(p)))
    ensures NamedEntries(Entries(p)) == NamedEntries(p)
    ensures multiset(IndexEntries(Entries(p))) == multiset(IndexEntries(p))
  {
    var a := SortByIndex(IndexEntries(p));
    var n := NamedEntries(p);
    assert Entries(p) == a + n;
    FilterKeepsDistinct(p);
    SortByIndexSorts(IndexEntries(p));
    FilterMembers(p);
    SortedIsIndexed(p);
    FilterAll(a);
    FilterAll(n);
    FiltersAppend(a, n);
    assert IndexEntries(a + n) == a;
    assert NamedEntries(a + n) == n;
  }

  /** Listing the entries of an already listed object changes nothing (spread, then entries). */
  lemma EntriesIdempotent<V>(p: Props<V>)
    requires UniqueKeys(p)
    ensures Entries(Entries(p)) == Entries(p)
  {
    EntriesOrder(p);
    SortAscending(IndexEntries(Entries(p)));
  }

  /**
   * Putting a key that is not an array index leaves the array-index entries
   * alone and, if the key is new, appends it to the other keys.
   */
  lemma PutNamed<V>(p: Props<V>, k: string, v: V)
    requires !IsArrayIndex(k)
    ensures IndexEntries(Put(p, k, v)) == IndexEntries(p)
    ensures Keys(NamedEntries(Put(p, k, v)))
         == if k in Keys(p) then Keys(NamedEntries(p)) else Keys(NamedEntries(p)) + [k]
  {
    PutIndexEntries(p, k, v);
    PutNamedKeys(p, k, v);
  }

  lemma {:induction false} PutIndexEntries<V>(p: Props<V>, k: string, v: V)
    requires !IsArrayIndex(k)
    ensures IndexEntries(Put(p, k, v)) == IndexEntries(p)
  {
    if p == [] {
    } else if p[0].0 == k {
      assert Put(p, k, v)[1..] == p[1..];
    } else {
      var r := Put(p, k, v);
      assert r[0] == p[0] && r[1..] == Put(p[1..], k, v);
      PutIndexEntries(p[1..], k, v);
    }
  }

  lemma {:induction false} PutNamedKeys<V>(p: Props<V>, k: string, v: V)
    requires !IsArrayIndex(k)
    ensures Keys(NamedEntries(Put(p, k, v)))
         == if k in Keys(p) then Keys(NamedEntries(p)) else Keys(NamedEntries(p)) + [k]
  {
    PutCommutesNamed(p, k, v);
    NamedKeyMember(p, k);
  }

  lemma {:induction false} PutCommutesNamed<V>(p: Props<V>, k: string, v: V)
    requires !IsArrayIndex(k)
    ensures NamedEntries(Put(p, k, v)) == Put(NamedEntries(p), k, v)
  {
    if p == [] {
      assert NamedEntries([(k, v)]) == [(k, v)];
    } else if p[0].0 == k {
      var r := Put(p, k, v);
      assert r[1..] == p[1..];
      assert NamedEntries(r) == [(k, v)] + NamedEntries(p[1..]);
      assert NamedEntries(p) == [p[0]] + NamedEntries(p[1..]);
    } else {
      var r, tail := Put(p, k, v), Put(p[1..], k, v);
      assert r[0] == p[0] && r[1..] == tail;
      PutCommutesNamed(p[1..], k, v);
      if !IsArrayIndex(p[0].0) {
        assert NamedEntries(r) == [p[0]] + NamedEntries(tail);
        var n := [p[0]] + NamedEntries(p[1..]);
        assert NamedEntries(p) == n;
        assert n[0] == p[0] && n[1..] == NamedEntries(p[1..]);
      } else {
        assert NamedEntries(r) == NamedEntries(tail);
        assert NamedEntries(p) == NamedEntries(p[1..]);
      }
    }
  }

  lemma {:induction false} NamedKeyMember<V>(p: Props<V>, k: string)
    requires !IsArrayIndex(k)
    ensures k in Keys(NamedEntries(p)) <==> k in Keys(p)
  {
    if p != [] {
      NamedKeyMember(p[1..], k);
      assert Keys(p) == [p[0].0] + Keys(p[1..]);
      if !IsArrayIndex(p[0].0) {
        assert NamedEntries(p) == [p[0]] + NamedEntries(p[1..]);
        KeysCons(p[0], NamedEntries(p[1..]));
      } else {
        assert NamedEntries(p) == NamedEntries(p[1..]);
        assert p[0].0 != k;
      }
    }
  }

  /** An object without array-index keys is listed in creation order. */
  lemma EntriesWithoutIndexKeys<V>(p: Props<V>)
    requires forall e :: e in p ==> !IsArrayIndex(e.0)
    ensures Entries(p) == p
  {
    FilterAll(p);
  }

  // ----- values mapped through a function -----

  /** The same properties with every value passed through `f`. */
  function MapValues<V, W>(p: Props<V>, f: V -> W): (r: Props<W>)
    ensures |r| == |p| && Keys(r) == Keys(p)
    ensures forall i :: 0 <= i < |p| ==> r[i] == (p[i].0, f(p[i].1))
  {
    if p == [] then [] else [(p[0].0, f(p[0].1))] + MapValues(p[1..], f)
  }

  lemma {:induction false} MapValuesPut<V, W>(p: Props<V>, k: string, v: V, f: V -> W)
    ensures MapValues(Put(p, k, v), f) == Put(MapValues(p, f), k, f(v))
  {
    if p != [] && p[0].0 != k {
      MapValuesPut(p[1..], k, v, f);
      assert MapValues(p, f)[1..] == MapValues(p[1..], f);
    }
  }

  lemma MapValuesUnique<V, W>(p: Props<V>, f: V -> W)
    requires UniqueKeys(p)
    ensures UniqueKeys(MapValues(p, f))
  {
    assert Keys(MapValues(p, f)) == Keys(p);
  }

  lemma {:induction false} MapValuesEntries<V, W>(p: Props<V>, f: V -> W)
    ensures Entries(MapValues(p, f)) == MapValues(Entries(p), f)
  {
    MapValuesIndexEntries(p, f);
    MapValuesNamedEntries(p, f);
    MapValuesSort(IndexEntries(p), f);
    MapValuesAppend(SortByIndex(IndexEntries(p)), NamedEntries(p), f);
  }

  lemma {:induction false} MapValuesAppend<V, W>(a: Props<V>, b: Props<V>, f: V -> W)
    ensures MapValues(a + b, f) == MapValues(a, f) + MapValues(b, f)
  {
  }

  lemma {:induction false} MapValuesIndexEntries<V, W>(p: Props<V>, f: V -> W)
    ensures IndexEntries(MapValues(p, f)) == MapValues(IndexEntries(p), f)
  {
    if p != [] {
      var m := MapValues(p, f);
      MapValuesIndexEntries(p[1..], f);
      assert m[1..] == MapValues(p[1..], f);
      var h := if IsArrayIndex(p[0].0) then [p[0]] else [];
      assert IndexEntries(p) == h + IndexEntries(p[1..]);
      MapValuesAppend(h, IndexEntries(p[1..]), f);
    }
  }

  lemma {:induction false} MapValuesNamedEntries<V, W>(p: Props<V>, f: V -> W)
    ensures NamedEntries(MapValues(p, f)) == MapValues(NamedEntries(p), f)
  {
    if p != [] {
      var m := MapValues(p, f);
      MapValuesNamedEntries(p[1..], f);
      assert m[1..] == MapValues(p[1..], f);
      var h := if IsArrayIndex(p[0].0) then [] else [p[0]];
      assert NamedEntries(p) == h + NamedEntries(p[1..]);
      MapValuesAppend(h, NamedEntries(p[1..]), f);
    }
  }

  lemma {:induction false} MapValuesSort<V, W>(p: Props<V>, f: V -> W)
    ensures SortByIndex(MapValues(p, f)) == MapValues(SortByIndex(p), f)
  {
    if p != [] {
      MapValuesSort(p[1..], f);
      assert MapValues(p, f)[1..] == MapValues(p[1..], f);
      MapValuesInsert(p[0], SortByIndex(p[1..]), f);
    }
  }

  lemma {:induction false} MapValuesInsert<V, W>(e: (string, V), s: Props<V>, f: V -> W)
    ensures Insert((e.0, f(e.1)), MapValues(s, f)) == MapValues(Insert(e, s), f)
  {
    if s != [] && !IndexLess(e.0, s[0].0) {
      MapValuesInsert(e, s[1..], f);
      assert MapValues(s, f)[1..] == MapValues(s[1..], f);
    }
  }

  /** Looking a key up after mapping the values maps the value looked up. */
  lemma {:induction false} MapValuesGet<V, W>(p: Props<V>, k: string, f: V -> W)
    ensures Get(MapValues(p, f), k) == if Get(p, k).Some? then Some(f(Get(p, k).value)) else None
  {
    if p != [] && p[0].0 != k {
      MapValuesGet(p[1..], k, f);
      assert MapValues(p, f)[1..] == MapValues(p[1..], f);
    }
  }
}
