/**
  Merging detection evidence of a fleet: the recursive union of nested summaries, and the merge of
  evidence lists by (rule, host) as a homomorphism from lists to rows.
*/
module Evidence {
  import opened Wrappers

  datatype Json = Scalar(text: string) | List(items: seq<Json>) | Dict(fields: map<string, Json>)

  type Summary = map<string, Json>

  // ---------------------------------------------------------------- lists without repetition

  /** The elements whose key has not been seen yet, each key once, in order of first appearance. */
  function DedupFrom<T, K(==)>(s: seq<T>, key: T -> K, seen: set<K>): seq<T> {
    if s == [] then []
    else if key(s[0]) in seen then DedupFrom(s[1..], key, seen)
    else [s[0]] + DedupFrom(s[1..], key, seen + {key(s[0])})
  }

  function Dedup<T, K(==)>(s: seq<T>, key: T -> K): seq<T> {
    DedupFrom(s, key, {})
  }

  ghost function KeySet<T, K>(s: seq<T>, key: T -> K): set<K> {
    set x | x in s :: key(x)
  }

  lemma KeySetOfConcat<T, K>(a: seq<T>, b: seq<T>, key: T -> K)
    ensures KeySet(a + b, key) == KeySet(a, key) + KeySet(b, key)
  {
    forall k
      ensures k in KeySet(a + b, key) <==> k in KeySet(a, key) + KeySet(b, key)
    {}
  }

  lemma {:induction false} DedupOfConcat<T, K>(a: seq<T>, b: seq<T>, key: T -> K, seen: set<K>)
    ensures DedupFrom(a + b, key, seen) == DedupFrom(a, key, seen) + DedupFrom(b, key, seen + KeySet(a, key))
    decreases |a|
  {
    if a == [] {
      assert a + b == b;
      assert seen + KeySet(a, key) == seen;
    } else {
      var k := key(a[0]);
      assert (a + b)[1..] == a[1..] + b;
      assert a == [a[0]] + a[1..];
      KeySetOfConcat([a[0]], a[1..], key);
      assert KeySet([a[0]], key) == {k};
      DedupOfConcat(a[1..], b, key, seen + {k});
      assert seen + {k} + KeySet(a[1..], key) == seen + KeySet(a, key);
      if k in seen {
        assert seen + {k} == seen;
      }
    }
  }

  /** Dropping repetitions twice is dropping them once, with both sets of keys seen. */
  lemma {:induction false} DedupTwice<T, K>(a: seq<T>, key: T -> K, seen: set<K>, seen': set<K>)
    ensures DedupFrom(DedupFrom(a, key, seen), key, seen') == DedupFrom(a, key, seen + seen')
    decreases |a|
  {
    if a != [] {
      var k := key(a[0]);
      if k in seen {
        DedupTwice(a[1..], key, seen, seen');
      } else {
        var rest := DedupFrom(a[1..], key, seen + {k});
        assert ([a[0]] + rest)[1..] == rest;
        if k in seen' {
          DedupTwice(a[1..], key, seen + {k}, seen');
          assert seen + {k} + seen' == seen + seen';
        } else {
          DedupTwice(a[1..], key, seen + {k}, seen' + {k});
          assert seen + {k} + (seen' + {k}) == seen + seen' + {k};
        }
      }
    }
  }

  lemma {:induction false} DedupKeys<T, K>(a: seq<T>, key: T -> K, seen: set<K>)
    ensures KeySet(DedupFrom(a, key, seen), key) == KeySet(a, key) - seen
    decreases |a|
  {
    if a != [] {
      var k := key(a[0]);
      assert a == [a[0]] + a[1..];
      KeySetOfConcat([a[0]], a[1..], key);
      assert KeySet([a[0]], key) == {k};
      if k in seen {
        DedupKeys(a[1..], key, seen);
      } else {
        DedupKeys(a[1..], key, seen + {k});
        KeySetOfConcat([a[0]], DedupFrom(a[1..], key, seen + {k}), key);
      }
    }
  }

  /** Repetitions may be dropped in the parts first. */
  lemma DedupParts<T, K>(a: seq<T>, b: seq<T>, key: T -> K)
    ensures Dedup(Dedup(a, key) + b, key) == Dedup(a + b, key)
    ensures Dedup(a + Dedup(b, key), key) == Dedup(a + b, key)
  {
    hide DedupFrom;
    var none: set<K> := {};
    assert none + none == none;
    DedupOfConcat(a, b, key, {});
    DedupOfConcat(Dedup(a, key), b, key, {});
    DedupTwice(a, key, {}, {});
    DedupKeys(a, key, {});
    assert {} + KeySet(Dedup(a, key), key) == {} + KeySet(a, key);
    DedupOfConcat(a, Dedup(b, key), key, {});
    DedupTwice(b, key, {}, {} + KeySet(a, key));
    assert {} + ({} + KeySet(a, key)) == {} + KeySet(a, key);
  }

  // ---------------------------------------------------------------- union of nested values

  /**
    deep_union on the values of one key: lists are joined without repetition, dicts recursively,
    else the later wins.
  */
  function Join(x: Json, y: Json, key: Json -> string): Json
    decreases y
  {
    if x.List? && y.List? then List(Dedup(x.items + y.items, key))
    else if x.Dict? && y.Dict? then
      Dict(map k | k in x.fields.Keys + y.fields.Keys ::
             if k !in y.fields then x.fields[k]
             else if k !in x.fields then y.fields[k]
             else Join(x.fields[k], y.fields[k], key))
    else y
  }

  function DeepUnion(a: Summary, b: Summary, key: Json -> string): Summary {
    Join(Dict(a), Dict(b), key).fields
  }

  predicate SameKind(x: Json, y: Json) {
    x.Scalar? == y.Scalar? && x.List? == y.List?
  }

  /** The two values agree in kind at every path they share. */
  predicate Compatible(x: Json, y: Json)
    decreases y
  {
    && SameKind(x, y)
    && (x.Dict? && y.Dict? ==> forall k :: k in x.fields && k in y.fields ==> Compatible(x.fields[k], y.fields[k]))
  }

  /** No two elements have the same key. */
  predicate NoRepeats<T, K(==)>(s: seq<T>, key: T -> K) {
    forall i, j :: 0 <= i < j < |s| ==> key(s[i]) != key(s[j])
  }

  /**
    The later value already holds the earlier one: a list without repetitions that begins with the other's elements,
    a dict that has all the other's keys with values that absorb theirs. A value of another kind replaces the earlier.
  */
  predicate Absorbs(x: Json, z: Json, key: Json -> string)
    decreases z
  {
    if x.List? && z.List? then Dedup(x.items, key) <= z.items && NoRepeats(z.items, key)
    else if x.Dict? && z.Dict? then
      forall k :: k in x.fields ==> k in z.fields && Absorbs(x.fields[k], z.fields[k], key)
    else true
  }

  lemma {:induction false} DedupNothing<T, K>(s: seq<T>, key: T -> K, seen: set<K>)
    ensures |DedupFrom(s, key, seen)| <= |s|
    ensures DedupFrom(s, key, seen) == s <==> NoRepeats(s, key) && forall i :: 0 <= i < |s| ==> key(s[i]) !in seen
  {
    if s != [] {
      var k, rest := key(s[0]), s[1..];
      if k in seen {
        DedupNothing(rest, key, seen);
      } else {
        DedupNothing(rest, key, seen + {k});
        assert s == [s[0]] + rest;
        assert forall i :: 0 <= i < |rest| ==> rest[i] == s[i + 1];
        assert DedupFrom(s, key, seen) == s <==> DedupFrom(rest, key, seen + {k}) == rest;
        NoRepeatsCons(s, key, seen);
      }
    }
  }

  lemma {:induction false} NoRepeatsCons<T, K>(s: seq<T>, key: T -> K, seen: set<K>)
    requires s != [] && key(s[0]) !in seen
    ensures var rest, k := s[1..], key(s[0]);
            NoRepeats(s, key) && (forall i :: 0 <= i < |s| ==> key(s[i]) !in seen) <==>
            NoRepeats(rest, key) && (forall i :: 0 <= i < |rest| ==> key(rest[i]) !in seen + {k})
  {
    var rest, k := s[1..], key(s[0]);
    if NoRepeats(rest, key) && (forall i :: 0 <= i < |rest| ==> key(rest[i]) !in seen + {k}) {
      forall i | 0 <= i < |s| ensures key(s[i]) !in seen {
        if i > 0 {
          assert rest[i - 1] == s[i];
        }
      }
      forall i, j | 0 <= i < j < |s| ensures key(s[i]) != key(s[j]) {
        assert rest[j - 1] == s[j];
        if i > 0 {
          assert rest[i - 1] == s[i];
        }
      }
    }
    if NoRepeats(s, key) && (forall i :: 0 <= i < |s| ==> key(s[i]) !in seen) {
      forall i | 0 <= i < |rest| ensures key(rest[i]) !in seen + {k} {
        assert rest[i] == s[i + 1];
      }
      forall i, j | 0 <= i < j < |rest| ensures key(rest[i]) != key(rest[j]) {
        assert rest[i] == s[i + 1] && rest[j] == s[j + 1];
      }
    }
  }

  lemma {:induction false} DedupSeen<T, K>(s: seq<T>, key: T -> K, seen: set<K>)
    requires KeySet(s, key) <= seen
    ensures DedupFrom(s, key, seen) == []
  {
    if s != [] {
      assert s[0] in s && key(s[0]) in KeySet(s, key);
      assert forall x :: x in s[1..] ==> x in s;
      DedupSeen(s[1..], key, seen);
    }
  }

  /** Joining leaves the later list as it is exactly if it begins with the earlier one and repeats nothing. */
  lemma {:induction false} DedupAbsorbs<T, K>(a: seq<T>, b: seq<T>, key: T -> K)
    ensures Dedup(a + b, key) == b <==> Dedup(a, key) <= b && NoRepeats(b, key)
  {
    hide DedupFrom, NoRepeats;
    var d, none: set<K> := Dedup(a, key), {};
    DedupOfConcat(a, b, key, none);
    assert none + KeySet(a, key) == KeySet(a, key);
    DedupNothing(b, key, none);
    if Dedup(a + b, key) == b {
      DedupTwice(a + b, key, none, none);
      assert none + none == none;
    }
    if d <= b && NoRepeats(b, key) {
      var rest := b[|d|..];
      assert b == d + rest;
      DedupKeys(a, key, none);
      assert KeySet(d, key) == KeySet(a, key) - none == KeySet(a, key);
      DedupOfConcat(d, rest, key, KeySet(a, key));
      DedupSeen(d, key, KeySet(a, key));
      assert KeySet(a, key) + KeySet(d, key) == KeySet(a, key);
      RestUnseen(d, rest, key);
      DedupNothing(rest, key, KeySet(a, key));
      assert [] + rest == rest;
    }
  }

  lemma RestUnseen<T, K>(d: seq<T>, rest: seq<T>, key: T -> K)
    requires NoRepeats(d + rest, key)
    ensures NoRepeats(rest, key) && forall i :: 0 <= i < |rest| ==> key(rest[i]) !in KeySet(d, key)
  {
    var b := d + rest;
    forall i | 0 <= i < |rest| ensures key(rest[i]) !in KeySet(d, key) {
      assert b[|d| + i] == rest[i];
      forall j | 0 <= j < |d| ensures key(d[j]) != key(rest[i]) {
        assert b[j] == d[j];
      }
    }
    forall i, j | 0 <= i < j < |rest| ensures key(rest[i]) != key(rest[j]) {
      assert b[|d| + i] == rest[i] && b[|d| + j] == rest[j];
    }
  }

  /** Joining leaves the later value as it is exactly if it absorbs the earlier one. */
  lemma {:induction false} JoinAbsorbs(x: Json, z: Json, key: Json -> string)
    ensures Join(x, z, key) == z <==> Absorbs(x, z, key)
    decreases z
  {
    if x.List? && z.List? {
      hide Dedup;
      DedupAbsorbs(x.items, z.items, key);
    } else if x.Dict? && z.Dict? {
      var j := Join(x, z, key);
      forall k | k in x.fields && k in z.fields
        ensures j.fields[k] == z.fields[k] <==> Absorbs(x.fields[k], z.fields[k], key)
      {
        JoinAbsorbs(x.fields[k], z.fields[k], key);
      }
      assert j == z <==> j.fields == z.fields;
      if Absorbs(x, z, key) {
        assert j.fields.Keys == z.fields.Keys;
        forall k | k in z.fields ensures j.fields[k] == z.fields[k] {}
        assert j.fields == z.fields;
      }
      if j == z {
        forall k | k in x.fields ensures k in z.fields && Absorbs(x.fields[k], z.fields[k], key) {
          assert k in j.fields;
        }
      }
    }
  }

  /** Where grouping matters: two lists (or dicts) with something else between them. */
  predicate Groupable(x: Json, y: Json, z: Json, key: Json -> string)
    decreases z
  {
    if x.Dict? && y.Dict? && z.Dict? then
      forall k :: k in x.fields && k in y.fields && k in z.fields ==>
                    Groupable(x.fields[k], y.fields[k], z.fields[k], key)
    else if (x.List? && z.List? && !y.List?) || (x.Dict? && z.Dict? && !y.Dict?) then
      Absorbs(x, z, key)
    else true
  }

  /** The union is associative on three values exactly when they are groupable. */
  lemma {:induction false} JoinAssociative(x: Json, y: Json, z: Json, key: Json -> string)
    ensures Join(Join(x, y, key), z, key) == Join(x, Join(y, z, key), key) <==> Groupable(x, y, z, key)
    decreases z
  {
    if x.Dict? && y.Dict? && z.Dict? {
      JoinAssociativeDict(x, y, z, key);
    } else if x.List? && y.List? && z.List? {
      hide Dedup;
      DedupParts(x.items + y.items, z.items, key);
      DedupParts(x.items, y.items + z.items, key);
      assert x.items + y.items + z.items == x.items + (y.items + z.items);
    } else {
      hide Absorbs;
      JoinAbsorbs(x, z, key);
    }
  }

  lemma {:induction false} JoinAssociativeDict(x: Json, y: Json, z: Json, key: Json -> string)
    requires x.Dict? && y.Dict? && z.Dict?
    ensures Join(Join(x, y, key), z, key) == Join(x, Join(y, z, key), key) <==> Groupable(x, y, z, key)
    decreases z, 0
  {
    var l, r := Join(Join(x, y, key), z, key), Join(x, Join(y, z, key), key);
    assert l.fields.Keys == r.fields.Keys;
    forall k | k in l.fields
      ensures l.fields[k] == r.fields[k] <==>
              (k in x.fields && k in y.fields && k in z.fields ==>
                  Groupable(x.fields[k], y.fields[k], z.fields[k], key))
    {
      if k in x.fields && k in y.fields && k in z.fields {
        JoinAssociative(x.fields[k], y.fields[k], z.fields[k], key);
      }
    }
    assert l == r <==> forall k :: k in l.fields ==> l.fields[k] == r.fields[k];
  }

  lemma {:induction false} CompatibleGroupable(x: Json, y: Json, z: Json, key: Json -> string)
    requires Compatible(x, y) && Compatible(y, z)
    ensures Groupable(x, y, z, key)
    decreases z
  {
    if x.Dict? && y.Dict? && z.Dict? {
      forall k | k in x.fields && k in y.fields && k in z.fields
        ensures Groupable(x.fields[k], y.fields[k], z.fields[k], key)
      {
        CompatibleGroupable(x.fields[k], y.fields[k], z.fields[k], key);
      }
    }
  }

  lemma {:induction false} CompatibleSymmetric(x: Json, y: Json)
    requires Compatible(x, y)
    ensures Compatible(y, x)
    decreases y
  {
    if x.Dict? && y.Dict? {
      forall k | k in x.fields && k in y.fields
        ensures Compatible(y.fields[k], x.fields[k])
      {
        CompatibleSymmetric(x.fields[k], y.fields[k]);
      }
    }
  }

  /** A union agrees in kind with whatever both parts agree with. */
  lemma {:induction false} JoinCompatible(x: Json, y: Json, z: Json, key: Json -> string)
    requires Compatible(x, y) && Compatible(x, z) && Compatible(y, z)
    ensures Compatible(Join(x, y, key), z)
    decreases z
  {
    if x.Dict? && y.Dict? && z.Dict? {
      var j := Join(x, y, key);
      forall k | k in j.fields && k in z.fields
        ensures Compatible(j.fields[k], z.fields[k])
      {
        if k in x.fields && k in y.fields {
          JoinCompatible(x.fields[k], y.fields[k], z.fields[k], key);
        }
      }
    }
  }

  // ---------------------------------------------------------------- rows

  type RowKey = (Option<string>, Option<string>)

  /** A piece of evidence; a merged row has the same fields. */
  datatype Item = Item(rule: Option<string>, host: Option<string>, window: Option<string>, count: int,
                       summary: Summary, exemplars: seq<Json>)

  const MAX_EXEMPLARS := 10

  function KeyOf(e: Item): RowKey {
    (e.rule, e.host)
  }

  function First(s: seq<Json>, n: nat): seq<Json> {
    if |s| <= n then s else s[..n]
  }

  function FirstTen(s: seq<Json>): seq<Json> {
    First(s, MAX_EXEMPLARS)
  }

  function Max(a: int, b: int): int {
    if a > b then a else b
  }

  function NewRow(e: Item): Item {
    e.(exemplars := FirstTen(e.exemplars))
  }

  function ExtendRow(row: Item, e: Item, key: Json -> string): Item {
    row.(count := Max(row.count, e.count),
         summary := DeepUnion(row.summary, e.summary, key),
         exemplars := if |row.exemplars| < MAX_EXEMPLARS && e.exemplars != []
                      then row.exemplars + First(e.exemplars, MAX_EXEMPLARS - |row.exemplars|)
                      else row.exemplars)
  }

  function RowIndex(rows: seq<Item>, k: RowKey): (i: nat)
    ensures i <= |rows|
    ensures i < |rows| ==> KeyOf(rows[i]) == k
    ensures forall j :: 0 <= j < i ==> KeyOf(rows[j]) != k
  {
    if rows == [] || KeyOf(rows[0]) == k then 0 else 1 + RowIndex(rows[1..], k)
  }

  function Insert(rows: seq<Item>, e: Item, key: Json -> string): seq<Item> {
    var i := RowIndex(rows, KeyOf(e));
    if i == |rows| then rows + [NewRow(e)] else rows[i := ExtendRow(rows[i], e, key)]
  }

  /** merge_evidence on the concatenated batches. */
  function Merge(es: seq<Item>, key: Json -> string): seq<Item> {
    if es == [] then [] else Insert(Merge(es[..|es| - 1], key), es[|es| - 1], key)
  }

  // ---------------------------------------------------------------- what a merged row contains

  function Of(es: seq<Item>, k: RowKey): seq<Item> {
    if es == [] then []
    else if KeyOf(es[0]) == k then [es[0]] + Of(es[1..], k)
    else Of(es[1..], k)
  }

  function MaxCount(es: seq<Item>): int
    requires es != []
  {
    if |es| == 1 then es[0].count else Max(MaxCount(es[..|es| - 1]), es[|es| - 1].count)
  }

  function UnionAll(es: seq<Item>, key: Json -> string): Summary
    requires es != []
  {
    if |es| == 1 then es[0].summary
    else DeepUnion(UnionAll(es[..|es| - 1], key), es[|es| - 1].summary, key)
  }

  function AllExemplars(es: seq<Item>): seq<Json> {
    if es == [] then [] else AllExemplars(es[..|es| - 1]) + es[|es| - 1].exemplars
  }

  /**
    The row for some evidence on one (rule, host): the first window, the largest count, the union,
    the first ten exemplars.
  */
  function Row(es: seq<Item>, key: Json -> string): Item
    requires es != []
  {
    Item(es[0].rule, es[0].host, es[0].window, MaxCount(es), UnionAll(es, key), FirstTen(AllExemplars(es)))
  }

  lemma {:induction false} MaxCountMeaning(es: seq<Item>)
    requires es != []
    ensures (forall e :: e in es ==> e.count <= MaxCount(es)) && exists e :: e in es && e.count == MaxCount(es)
    decreases |es|
  {
    var d, last := es[..|es| - 1], es[|es| - 1];
    assert es == d + [last] && last in es;
    if d != [] {
      MaxCountMeaning(d);
      var e :| e in d && e.count == MaxCount(d);
      assert e in es;
    }
  }

  /** A row names its rule and host, keeps the first window, the largest count and the first ten exemplars. */
  lemma {:induction false} RowMeaning(es: seq<Item>, key: Json -> string)
    requires es != []
    ensures var row, all := Row(es, key), AllExemplars(es);
            && row.rule == es[0].rule && row.host == es[0].host && row.window == es[0].window
            && (forall e :: e in es ==> e.count <= row.count) && (exists e :: e in es && e.count == row.count)
            && row.exemplars == (if |all| <= 10 then all else all[..10])
            && row.summary == UnionAll(es, key)
  {
    hide UnionAll, AllExemplars;
    MaxCountMeaning(es);
  }

  /** A merged list has each element of the two lists once, the first of those with one key, in order. */
  lemma {:induction false} DedupMeaning<T, K>(s: seq<T>, key: T -> K, seen: set<K>)
    ensures var d := DedupFrom(s, key, seen);
            && NoRepeats(d, key)
            && (forall x :: x in d ==> x in s && key(x) !in seen)
            && (forall i :: 0 <= i < |s| && key(s[i]) !in seen ==>
                  (forall j :: 0 <= j < i ==> key(s[j]) != key(s[i])) ==> s[i] in d)
    decreases |s|
  {
    if s != [] {
      var k := key(s[0]);
      var rest := s[1..];
      assert s == [s[0]] + rest;
      assert forall i :: 0 <= i < |rest| ==> rest[i] == s[i + 1];
      DedupMeaning(rest, key, if k in seen then seen else seen + {k});
    }
  }

  lemma RowOfOne(e: Item, key: Json -> string)
    ensures Row([e], key) == NewRow(e)
  {
    assert AllExemplars([e]) == e.exemplars by {
      assert [e][..0] == [];
      assert AllExemplars([]) == [];
    }
  }

  lemma RowExtended(es: seq<Item>, e: Item, key: Json -> string)
    requires es != []
    ensures Row(es + [e], key) == ExtendRow(Row(es, key), e, key)
  {
    hide DeepUnion;
    assert (es + [e])[..|es|] == es;
    FirstTenMore(AllExemplars(es), e.exemplars);
  }

  lemma FirstTenMore(a: seq<Json>, b: seq<Json>)
    ensures var t := FirstTen(a);
            FirstTen(a + b) == if |t| < MAX_EXEMPLARS && b != []
                               then t + First(b, MAX_EXEMPLARS - |t|)
                               else t
  {}

  lemma FirstTenParts(a: seq<Json>, b: seq<Json>)
    ensures FirstTen(FirstTen(a) + FirstTen(b)) == FirstTen(a + b)
    ensures FirstTen(FirstTen(a)) == FirstTen(a)
  {}

  /** Keys in order of first appearance. */
  function Keys(es: seq<Item>): seq<RowKey> {
    seq(|es|, i requires 0 <= i < |es| => KeyOf(es[i]))
  }

  function Itself(k: RowKey): RowKey { k }

  lemma {:induction false} DedupDistinct(ks: seq<RowKey>, seen: set<RowKey>)
    ensures var d := DedupFrom(ks, Itself, seen);
            && (forall i, j :: 0 <= i < j < |d| ==> d[i] != d[j])
            && (forall k :: k in d <==> k in ks && k !in seen)
  {
    if ks != [] {
      assert ks == [ks[0]] + ks[1..];
      DedupDistinct(ks[1..], if ks[0] in seen then seen else seen + {ks[0]});
    }
  }

  lemma {:induction false} OfOfConcat(a: seq<Item>, b: seq<Item>, k: RowKey)
    ensures Of(a + b, k) == Of(a, k) + Of(b, k)
  {
    if a == [] {
      assert a + b == b;
    } else {
      assert (a + b)[1..] == a[1..] + b;
      OfOfConcat(a[1..], b, k);
    }
  }

  lemma {:induction false} OfKeys(es: seq<Item>, k: RowKey)
    ensures forall e :: e in Of(es, k) <==> e in es && KeyOf(e) == k
    ensures Of(es, k) != [] <==> k in Keys(es)
  {
    if es == [] {
    } else {
      assert es == [es[0]] + es[1..];
      OfKeys(es[1..], k);
      assert Keys(es) == [KeyOf(es[0])] + Keys(es[1..]);
    }
  }

  lemma {:induction false} RowKeyOf(es: seq<Item>, k: RowKey, key: Json -> string)
    requires Of(es, k) != []
    ensures KeyOf(Row(Of(es, k), key)) == k
  {
    hide UnionAll, MaxCount, AllExemplars;
    OfKeys(es, k);
    assert Of(es, k)[0] in Of(es, k);
  }

  function RowKeys(es: seq<Item>): seq<RowKey> {
    Dedup(Keys(es), Itself)
  }

  /** `rows` are the rows of `es`: one for each (rule, host), in order of first appearance. */
  predicate RowsOf(rows: seq<Item>, es: seq<Item>, key: Json -> string) {
    && |rows| == |RowKeys(es)|
    && forall i :: 0 <= i < |rows| ==> Of(es, RowKeys(es)[i]) != [] && rows[i] == Row(Of(es, RowKeys(es)[i]), key)
  }

  lemma {:induction false} KeysSnoc(d: seq<Item>, e: Item)
    ensures RowKeys(d + [e]) == RowKeys(d) + (if KeyOf(e) in RowKeys(d) then [] else [KeyOf(e)])
    ensures forall k :: Of(d + [e], k) == if k == KeyOf(e) then Of(d, k) + [e] else Of(d, k)
  {
    var k := KeyOf(e);
    assert Keys(d + [e]) == Keys(d) + [k];
    DedupOfConcat(Keys(d), [k], Itself, {});
    DedupDistinct(Keys(d), {});
    assert k in KeySet(Keys(d), Itself) <==> k in Keys(d);
    assert [k][1..] == [];
    forall k'
      ensures Of(d + [e], k') == if k' == k then Of(d, k') + [e] else Of(d, k')
    {
      OfOfConcat(d, [e], k');
      OfOne(e, k');
      assert Of(d, k') + [] == Of(d, k');
    }
  }

  /** The keys of the rows are the keys of the evidence. */
  lemma RowsKeys(rows: seq<Item>, es: seq<Item>, key: Json -> string)
    requires RowsOf(rows, es, key)
    ensures Keys(rows) == RowKeys(es)
  {
    hide Row, RowKeys;
    forall i | 0 <= i < |rows|
      ensures KeyOf(rows[i]) == RowKeys(es)[i]
    {
      RowKeyOf(es, RowKeys(es)[i], key);
    }
  }

  lemma InsertRow(rows: seq<Item>, d: seq<Item>, e: Item, key: Json -> string)
    requires RowsOf(rows, d, key)
    ensures RowsOf(Insert(rows, e, key), d + [e], key)
  {
    hide Row, ExtendRow, NewRow, RowIndex, Of, RowKeys, RowsOf, Insert;
    var k := KeyOf(e);
    RowsKeys(rows, d, key);
    SameKeys(rows, d, key);
    var i := RowIndex(rows, k);
    if i == |rows| {
      assert k !in RowKeys(d);
      NewRowAdded(rows, d, e, key);
    } else {
      RowKeysDistinct(d);
      OldRowExtended(rows, d, e, i, key);
    }
  }

  lemma SameKeys(rows: seq<Item>, d: seq<Item>, key: Json -> string)
    requires RowsOf(rows, d, key) && Keys(rows) == RowKeys(d)
    ensures |rows| == |RowKeys(d)| && forall j :: 0 <= j < |rows| ==> KeyOf(rows[j]) == RowKeys(d)[j]
  {
    hide Row, RowKeys, Of;
    assert forall j :: 0 <= j < |rows| ==> KeyOf(rows[j]) == Keys(rows)[j];
  }

  lemma {:induction false} NewRowAdded(rows: seq<Item>, d: seq<Item>, e: Item, key: Json -> string)
    requires RowsOf(rows, d, key) && KeyOf(e) !in RowKeys(d) && RowIndex(rows, KeyOf(e)) == |rows|
    ensures RowsOf(Insert(rows, e, key), d + [e], key)
  {
    hide Row, NewRow, Of, RowKeys, RowIndex;
    KeysSnoc(d, e);
    OfKeys(d, KeyOf(e));
    RowKeysIn(d, KeyOf(e));
    assert Of(d + [e], KeyOf(e)) == [e];
    RowOfOne(e, key);
  }

  lemma {:induction false} OldRowExtended(rows: seq<Item>, d: seq<Item>, e: Item, i: nat, key: Json -> string)
    requires RowsOf(rows, d, key) && i == RowIndex(rows, KeyOf(e)) < |rows| && RowKeys(d)[i] == KeyOf(e)
    requires forall i, j :: 0 <= i < j < |RowKeys(d)| ==> RowKeys(d)[i] != RowKeys(d)[j]
    ensures RowsOf(Insert(rows, e, key), d + [e], key)
  {
    hide Row, ExtendRow, Of, RowKeys, RowIndex;
    KeysSnoc(d, e);
    RowExtended(Of(d, KeyOf(e)), e, key);
  }

  lemma RowKeysDistinct(es: seq<Item>)
    ensures forall i, j :: 0 <= i < j < |RowKeys(es)| ==> RowKeys(es)[i] != RowKeys(es)[j]
  {
    DedupDistinct(Keys(es), {});
  }

  lemma RowKeysIn(es: seq<Item>, k: RowKey)
    ensures k in RowKeys(es) <==> k in Keys(es)
  {
    DedupDistinct(Keys(es), {});
  }

  /**
    What merging computes: one row for each (rule, host), in order of first appearance, with the first window,
    the largest count, the union of all summaries and the first ten exemplars of that key's evidence.
  */
  lemma {:induction false} MergeMeaning(es: seq<Item>, key: Json -> string)
    ensures RowsOf(Merge(es, key), es, key)
    decreases |es|
  {
    hide RowsOf, Insert;
    if es == [] {
      NoRows(key);
    } else {
      var d, e := es[..|es| - 1], es[|es| - 1];
      assert es == d + [e];
      MergeMeaning(d, key);
      InsertRow(Merge(d, key), d, e, key);
    }
  }

  lemma NoRows(key: Json -> string)
    ensures RowsOf([], [], key)
  {}

  // ---------------------------------------------------------------- merging parts first

  predicate AllCompatible(es: seq<Item>) {
    forall e, e' :: e in es && e' in es && KeyOf(e) == KeyOf(e') ==> Compatible(Dict(e.summary), Dict(e'.summary))
  }

  predicate Alike(es: seq<Item>) {
    forall e, e' :: e in es && e' in es ==> Compatible(Dict(e.summary), Dict(e'.summary))
  }

  /** The union of alike summaries is alike to every further one. */
  lemma {:induction false} UnionCompatible(es: seq<Item>, z: Json, key: Json -> string)
    requires es != [] && Alike(es) && forall e :: e in es ==> Compatible(Dict(e.summary), z)
    ensures Compatible(Dict(UnionAll(es, key)), z)
    decreases |es|
  {
    hide Compatible, Join;
    if |es| > 1 {
      var d, e := es[..|es| - 1], es[|es| - 1];
      assert forall x :: x in d ==> x in es;
      UnionCompatible(d, z, key);
      UnionCompatible(d, Dict(e.summary), key);
      JoinCompatible(Dict(UnionAll(d, key)), Dict(e.summary), z, key);
      assert Dict(UnionAll(es, key)) == Join(Dict(UnionAll(d, key)), Dict(e.summary), key) by {
        JoinOfDicts(UnionAll(d, key), e.summary, key);
      }
    }
  }

  lemma JoinOfDicts(a: Summary, b: Summary, key: Json -> string)
    ensures Join(Dict(a), Dict(b), key) == Dict(DeepUnion(a, b, key))
  {}

  /** A union over two stretches is the union of their unions. */
  lemma {:induction false} UnionParts(a: seq<Item>, b: seq<Item>, key: Json -> string)
    requires a != [] && b != [] && Alike(a + b)
    ensures UnionAll(a + b, key) == DeepUnion(UnionAll(a, key), UnionAll(b, key), key)
    decreases |b|
  {
    hide Compatible, Join, DeepUnion;
    var d, e := b[..|b| - 1], b[|b| - 1];
    assert (a + b)[..|a + b| - 1] == a + d;
    if d == [] {
      assert a + d == a && b == [e];
    } else {
      assert Alike(a + d) by { assert forall x :: x in a + d ==> x in a + b; }
      UnionParts(a, d, key);
      var ua, ud, ue := Dict(UnionAll(a, key)), Dict(UnionAll(d, key)), Dict(e.summary);
      assert e in a + b && forall x :: x in d || x in a ==> x in a + b;
      assert Alike(a) && Alike(d);
      UnionCompatible(d, ue, key);
      CompatibleAll(a, d, b, key);
      CompatibleGroupable(ua, ud, ue, key);
      JoinAssociative(ua, ud, ue, key);
      JoinOfDicts(UnionAll(a, key), UnionAll(d, key), key);
      JoinOfDicts(UnionAll(d, key), e.summary, key);
      JoinOfDicts(UnionAll(a + d, key), e.summary, key);
      JoinOfDicts(UnionAll(a, key), DeepUnion(UnionAll(d, key), e.summary, key), key);
    }
  }

  lemma {:induction false} CompatibleAll(a: seq<Item>, d: seq<Item>, b: seq<Item>, key: Json -> string)
    requires a != [] && d != [] && Alike(a + b) && d <= b
    ensures Compatible(Dict(UnionAll(a, key)), Dict(UnionAll(d, key)))
  {
    hide Compatible, UnionAll;
    assert forall x :: x in d || x in a ==> x in a + b;
    assert Alike(a) && Alike(d);
    forall x | x in a
      ensures Compatible(Dict(x.summary), Dict(UnionAll(d, key)))
    {
      forall y | y in d
        ensures Compatible(Dict(y.summary), Dict(x.summary))
      {
        assert x in a + b && y in a + b;
      }
      UnionCompatible(d, Dict(x.summary), key);
      CompatibleSymmetric(Dict(UnionAll(d, key)), Dict(x.summary));
    }
    UnionCompatible(a, Dict(UnionAll(d, key)), key);
  }

  lemma {:induction false} MaxParts(a: seq<Item>, b: seq<Item>)
    requires a != [] && b != []
    ensures MaxCount(a + b) == Max(MaxCount(a), MaxCount(b))
    decreases |b|
  {
    var d := b[..|b| - 1];
    assert (a + b)[..|a + b| - 1] == a + d;
    if d == [] {
      assert a + d == a;
    } else {
      MaxParts(a, d);
    }
  }

  lemma {:induction false} ExemplarsParts(a: seq<Item>, b: seq<Item>)
    ensures AllExemplars(a + b) == AllExemplars(a) + AllExemplars(b)
    decreases |b|
  {
    if b == [] {
      assert a + b == a;
    } else {
      var d := b[..|b| - 1];
      assert (a + b)[..|a + b| - 1] == a + d;
      ExemplarsParts(a, d);
    }
  }

  /** Making a row of two rows is making one of all their evidence. */
  lemma RowParts(a: seq<Item>, b: seq<Item>, key: Json -> string)
    requires a != [] && b != [] && Alike(a + b)
    ensures Row([Row(a, key), Row(b, key)], key) == Row(a + b, key)
  {
    hide UnionAll, MaxCount, AllExemplars, DeepUnion, Alike;
    UnionParts(a, b, key);
    MaxParts(a, b);
    ExemplarsParts(a, b);
    FirstTenParts(AllExemplars(a), AllExemplars(b));
    RowOfOne(Row(a, key), key);
    RowExtended([Row(a, key)], Row(b, key), key);
    FirstTenMore(FirstTen(AllExemplars(a)), FirstTen(AllExemplars(b)));
    assert [Row(a, key)] + [Row(b, key)] == [Row(a, key), Row(b, key)];
  }

  lemma RowTwice(a: seq<Item>, key: Json -> string)
    requires a != []
    ensures Row([Row(a, key)], key) == Row(a, key)
  {
    hide UnionAll, MaxCount, AllExemplars;
    RowOfOne(Row(a, key), key);
    FirstTenParts(AllExemplars(a), []);
  }

  /** The evidence on one key among merged rows is its one row. */
  lemma {:induction false} OfMerged(es: seq<Item>, k: RowKey, key: Json -> string)
    ensures Of(Merge(es, key), k) == if Of(es, k) == [] then [] else [Row(Of(es, k), key)]
  {
    hide Row, RowKeys, Merge;
    var rows := Merge(es, key);
    MergeMeaning(es, key);
    RowsKeys(rows, es, key);
    RowKeysDistinct(es);
    RowKeysIn(es, k);
    OfKeys(es, k);
    if k in RowKeys(es) {
      var i :| 0 <= i < |rows| && RowKeys(es)[i] == k;
      assert forall j :: 0 <= j < |rows| ==> KeyOf(rows[j]) == Keys(rows)[j];
      OneOf(rows, i, k);
    } else {
      OfKeys(rows, k);
    }
  }

  lemma {:induction false} OneOf(rows: seq<Item>, i: nat, k: RowKey)
    requires i < |rows| && forall j :: 0 <= j < |rows| ==> (KeyOf(rows[j]) == k <==> j == i)
    ensures Of(rows, k) == [rows[i]]
  {
    hide Of;
    assert rows == rows[..i] + ([rows[i]] + rows[i + 1..]);
    OfOfConcat(rows[..i], [rows[i]] + rows[i + 1..], k);
    OfOfConcat([rows[i]], rows[i + 1..], k);
    NoneOf(rows[..i], k);
    NoneOf(rows[i + 1..], k);
    OfOne(rows[i], k);
  }

  lemma {:induction false} OfOne(e: Item, k: RowKey)
    ensures Of([e], k) == if KeyOf(e) == k then [e] else []
  {
    assert [e][1..] == [];
  }

  lemma {:induction false} NoneOf(rows: seq<Item>, k: RowKey)
    requires forall j :: 0 <= j < |rows| ==> KeyOf(rows[j]) != k
    ensures Of(rows, k) == []
  {
    OfKeys(rows, k);
  }

  lemma {:induction false} SameRow(x: seq<Item>, y: seq<Item>, k: RowKey, key: Json -> string)
    requires AllCompatible(x + y) && Of(x + y, k) != []
    ensures Of(Merge(x, key) + Merge(y, key), k) != []
    ensures Row(Of(Merge(x, key) + Merge(y, key), k), key) == Row(Of(x + y, k), key)
  {
    hide Row, Merge, Compatible, Of;
    var a, b := Of(x, k), Of(y, k);
    OfOfConcat(x, y, k);
    OfOfConcat(Merge(x, key), Merge(y, key), k);
    OfMerged(x, k, key);
    OfMerged(y, k, key);
    if a != [] && b != [] {
      OfKeys(x + y, k);
      assert Alike(a + b);
      RowParts(a, b, key);
      assert [Row(a, key)] + [Row(b, key)] == [Row(a, key), Row(b, key)];
    } else if a != [] {
      assert a + b == a && [Row(a, key)] + [] == [Row(a, key)];
      RowTwice(a, key);
    } else {
      assert a + b == b && [] + [Row(b, key)] == [Row(b, key)];
      RowTwice(b, key);
    }
  }

  /**
    Merging is a homomorphism: whenever summaries for one (rule, host) agree in kind at the paths they share,
    merging partial merges gives what merging everything at once gives, rows, contents and order alike.
  */
  lemma {:induction false} MergeOfMerges(x: seq<Item>, y: seq<Item>, key: Json -> string)
    requires AllCompatible(x + y)
    ensures Merge(Merge(x, key) + Merge(y, key), key) == Merge(x + y, key)
  {
    hide Merge, Row, Of, Compatible;
    var parts := Merge(x, key) + Merge(y, key);
    MergeMeaning(x, key);
    MergeMeaning(y, key);
    MergeMeaning(parts, key);
    MergeMeaning(x + y, key);
    SameRowKeys(x, y, key);
    forall i | 0 <= i < |RowKeys(x + y)|
      ensures Merge(parts, key)[i] == Merge(x + y, key)[i]
    {
      SameRow(x, y, RowKeys(x + y)[i], key);
    }
  }

  lemma {:induction false} SameRowKeys(x: seq<Item>, y: seq<Item>, key: Json -> string)
    ensures RowKeys(Merge(x, key) + Merge(y, key)) == RowKeys(x + y)
  {
    hide Merge, Row, Of, Dedup;
    MergeMeaning(x, key);
    MergeMeaning(y, key);
    RowsKeys(Merge(x, key), x, key);
    RowsKeys(Merge(y, key), y, key);
    assert Keys(Merge(x, key) + Merge(y, key)) == RowKeys(x) + RowKeys(y);
    DedupParts(Keys(x), RowKeys(y), Itself);
    DedupParts(Keys(x), Keys(y), Itself);
    assert Keys(x + y) == Keys(x) + Keys(y);
  }

  /** Evidence on a single key merges to its one row. */
  lemma {:induction false} MergeOneKey(es: seq<Item>, k: RowKey, key: Json -> string)
    requires es != [] && forall e :: e in es ==> KeyOf(e) == k
    ensures Merge(es, key) == [Row(es, key)] && KeyOf(Row(es, key)) == k
    decreases |es|
  {
    hide Row, ExtendRow, NewRow;
    var d, e := es[..|es| - 1], es[|es| - 1];
    assert es == d + [e] && e in es;
    if d == [] {
      RowOfOne(e, key);
      assert es == [e];
      assert Merge([], key) == [];
    } else {
      MergeOneKey(d, k, key);
      RowExtended(d, e, key);
    }
    assert KeyOf(Row(es, key)) == k by { FirstKey(es, key); }
  }

  lemma FirstKey(es: seq<Item>, key: Json -> string)
    requires es != []
    ensures KeyOf(Row(es, key)) == KeyOf(es[0]) && es[0] in es
  {}

  /** Everything in the row of two rows but the summary is what the row of all the evidence has. */
  lemma {:induction false} RowButSummary(a: seq<Item>, b: seq<Item>, key: Json -> string)
    requires a != [] && b != []
    ensures Row([Row(a, key), Row(b, key)], key) ==
            Row(a + b, key).(summary := DeepUnion(UnionAll(a, key), UnionAll(b, key), key))
  {
    hide UnionAll, MaxCount, AllExemplars, DeepUnion;
    MaxParts(a, b);
    ExemplarsParts(a, b);
    FirstTenParts(AllExemplars(a), AllExemplars(b));
    RowOfOne(Row(a, key), key);
    RowExtended([Row(a, key)], Row(b, key), key);
    FirstTenMore(FirstTen(AllExemplars(a)), FirstTen(AllExemplars(b)));
    assert [Row(a, key)] + [Row(b, key)] == [Row(a, key), Row(b, key)];
  }

  /** For three pieces of evidence on one key, grouping makes no difference exactly when the summaries are groupable. */
  lemma MergeGrouping(a: Item, b: Item, c: Item, key: Json -> string)
    requires KeyOf(a) == KeyOf(b) == KeyOf(c)
    ensures Merge(Merge([a], key) + Merge([b, c], key), key) == Merge([a, b, c], key) <==>
            Groupable(Dict(a.summary), Dict(b.summary), Dict(c.summary), key)
  {
    hide Join, Groupable, Merge, Row, DeepUnion;
    var k := KeyOf(a);
    MergeOneKey([a], k, key);
    MergeOneKey([b, c], k, key);
    var ra, rbc := Row([a], key), Row([b, c], key);
    assert [ra] + [rbc] == [ra, rbc] && [a] + [b, c] == [a, b, c];
    MergeOneKey([ra, rbc], k, key);
    MergeOneKey([a, b, c], k, key);
    RowButSummary([a], [b, c], key);
    Unions(a, b, c, key);
    JoinAssociative(Dict(a.summary), Dict(b.summary), Dict(c.summary), key);
    JoinOfDicts(a.summary, b.summary, key);
    JoinOfDicts(b.summary, c.summary, key);
    JoinOfDicts(DeepUnion(a.summary, b.summary, key), c.summary, key);
    JoinOfDicts(a.summary, DeepUnion(b.summary, c.summary, key), key);
  }

  lemma Unions(a: Item, b: Item, c: Item, key: Json -> string)
    ensures UnionAll([a], key) == a.summary
    ensures UnionAll([b, c], key) == DeepUnion(b.summary, c.summary, key)
    ensures Row([a, b, c], key).summary == DeepUnion(DeepUnion(a.summary, b.summary, key), c.summary, key)
  {
    hide DeepUnion;
    assert [b, c][..1] == [b];
    assert [a, b, c][..2] == [a, b] && [a, b][..1] == [a];
    assert UnionAll([a, b], key) == DeepUnion(a.summary, b.summary, key);
  }

  // ---------------------------------------------------------------- the merging loop

  /** The main loop of merge_evidence, over batches of evidence and with rows updated in place. */
  method MergeEvidence(batches: seq<seq<Item>>, key: Json -> string) returns (rows: seq<Item>)
    ensures rows == Merge(Flatten(batches), key)
  {
    hide Insert, NewRow, ExtendRow;
    rows := [];
    ghost var seen: seq<Item> := [];
    for i := 0 to |batches|
      invariant seen == Flatten(batches[..i]) && rows == Merge(seen, key)
    {
      var batch := batches[i];
      ghost var before := seen;
      assert before + batch[..0] == before;
      for j := 0 to |batch|
        invariant seen == before + batch[..j] && rows == Merge(seen, key)
      {
        var ev := batch[j];
        assert (seen + [ev])[..|seen|] == seen;
        rows := InsertEvidence(rows, ev, key);
        seen := seen + [ev];
        assert batch[..j + 1] == batch[..j] + [ev];
      }
      assert batch[..|batch|] == batch;
      FlattenSnoc(batches, i);
    }
    assert batches[..|batches|] == batches;
  }

  method InsertEvidence(rows: seq<Item>, ev: Item, key: Json -> string) returns (rows': seq<Item>)
    ensures rows' == Insert(rows, ev, key)
  {
    var k := (ev.rule, ev.host);
    var i := RowIndex(rows, k);
    if i == |rows| {
      var exemplars := if |ev.exemplars| > MAX_EXEMPLARS then ev.exemplars[..MAX_EXEMPLARS] else ev.exemplars;
      rows' := rows + [Item(ev.rule, ev.host, ev.window, ev.count, ev.summary, exemplars)];
    } else {
      var cur := rows[i];
      cur := cur.(count := if cur.count > ev.count then cur.count else ev.count);
      cur := cur.(summary := DeepUnion(cur.summary, ev.summary, key));
      if |cur.exemplars| < MAX_EXEMPLARS && |ev.exemplars| > 0 {
        var take := MAX_EXEMPLARS - |cur.exemplars|;
        var more := if take >= |ev.exemplars| then ev.exemplars else ev.exemplars[..take];
        cur := cur.(exemplars := cur.exemplars + more);
      }
      rows' := rows[i := cur];
    }
  }

  function Flatten(batches: seq<seq<Item>>): seq<Item> {
    if batches == [] then [] else Flatten(batches[..|batches| - 1]) + batches[|batches| - 1]
  }

  lemma FlattenSnoc(batches: seq<seq<Item>>, i: nat)
    requires i < |batches|
    ensures Flatten(batches[..i + 1]) == Flatten(batches[..i]) + batches[i]
  {
    assert batches[..i + 1][..i] == batches[..i];
  }
}
