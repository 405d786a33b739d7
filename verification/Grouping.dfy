/**
  Merging batches of evidence in any grouping: exactly when merging merged batches is merging everything at once.
*/
module Grouping {
  import opened Wrappers
  import opened Evidence

  // ---------------------------------------------------------------- unions of many values

  /** The values united from the left. */
  function Union(s: seq<Json>, key: Json -> string): Option<Json> {
    if s == [] then None
    else match Union(s[..|s| - 1], key)
      case None => Some(s[|s| - 1])
      case Some(u) => Some(Join(u, s[|s| - 1], key))
  }

  function ToSeq(o: Option<Json>): seq<Json> {
    match o case None => [] case Some(x) => [x]
  }

  /** The union of each group. */
  function Tops(gs: seq<seq<Json>>, key: Json -> string): seq<Json> {
    if gs == [] then [] else Tops(gs[..|gs| - 1], key) + ToSeq(Union(gs[|gs| - 1], key))
  }

  function Flat(gs: seq<seq<Json>>): seq<Json> {
    if gs == [] then [] else Flat(gs[..|gs| - 1]) + gs[|gs| - 1]
  }

  predicate AllLike(s: seq<Json>, z: Json) {
    forall i :: 0 <= i < |s| ==> SameKind(s[i], z)
  }

  lemma {:induction false} UnionSnoc(s: seq<Json>, v: Json, key: Json -> string)
    ensures Union(s + [v], key) == Some(if s == [] then v else Join(Union(s, key).value, v, key))
    ensures s != [] ==> Union(s, key).Some?
  {
    assert (s + [v])[..|s|] == s;
  }

  lemma {:induction false} UnionKind(s: seq<Json>, key: Json -> string)
    requires s != []
    ensures Union(s, key).Some? && SameKind(Union(s, key).value, s[|s| - 1])
  {}

  /** The union, if it is of the kind of z. */
  function IfLike(o: Option<Json>, z: Json): Option<Json> {
    if o.Some? && SameKind(o.value, z) then o else None
  }

  lemma {:induction false} JoinKinds(u: Json, v: Json, key: Json -> string)
    ensures SameKind(Join(u, v, key), v) && (!SameKind(u, v) ==> Join(u, v, key) == v)
  {}

  lemma {:induction false} LikeSnoc(a: seq<Json>, b: seq<Json>, v: Json, z: Json, key: Json -> string)
    requires IfLike(Union(a, key), z) == Union(b, key) && SameKind(v, z)
    ensures IfLike(Union(a + [v], key), z) == Union(b + [v], key)
  {
    hide Union, Join;
    UnionSnoc(a, v, key);
    UnionSnoc(b, v, key);
    UnionOfNone(key);
    if a != [] {
      JoinKinds(Union(a, key).value, v, key);
    }
  }

  lemma UnionOfNone(key: Json -> string)
    ensures Union([], key) == None
  {}

  /** Of what came before, only a union of the same kind matters. */
  lemma {:induction false} LikeConcat(a: seq<Json>, b: seq<Json>, g: seq<Json>, z: Json, key: Json -> string)
    requires IfLike(Union(a, key), z) == Union(b, key) && AllLike(g, z)
    ensures IfLike(Union(a + g, key), z) == Union(b + g, key)
    decreases |g|
  {
    hide Union, Join, SameKind;
    if g == [] {
      assert a + g == a && b + g == b;
    } else {
      var g', v := g[..|g| - 1], g[|g| - 1];
      LikeConcat(a, b, g', z, key);
      assert a + g == (a + g') + [v] && b + g == (b + g') + [v];
      LikeSnoc(a + g', b + g', v, z, key);
    }
  }

  /** The values at the end that are of the kind of z. */
  function Run(g: seq<Json>, z: Json): (r: seq<Json>)
    ensures |r| <= |g| && r == g[|g| - |r|..] && AllLike(r, z)
    ensures |r| < |g| ==> !SameKind(g[|g| - |r| - 1], z)
  {
    if g == [] || !SameKind(g[|g| - 1], z) then [] else Run(g[..|g| - 1], z) + [g[|g| - 1]]
  }

  lemma KindsDiffer(u: Json, v: Json, z: Json)
    requires SameKind(u, v) && !SameKind(v, z)
    ensures !SameKind(u, z)
  {}

  /** Where another kind stands in between, nothing before it matters. */
  lemma {:induction false} RunUnion(a: seq<Json>, g: seq<Json>, z: Json, key: Json -> string)
    requires !AllLike(g, z)
    ensures IfLike(Union(a + g, key), z) == Union(Run(g, z), key)
  {
    hide Union, SameKind, Run;
    var r, w := Run(g, z), g[..|g| - |Run(g, z)|];
    assert |r| < |g| by {
      if |r| == |g| {
        assert r == g;
      }
    }
    assert g == w + r && a + g == (a + w) + r && [] + r == r;
    UnionKind(a + w, key);
    assert (a + w)[|a + w| - 1] == w[|w| - 1] == g[|g| - |r| - 1];
    assert IfLike(Union(a + w, key), z) == None by {
      KindsDiffer(Union(a + w, key).value, w[|w| - 1], z);
    }
    UnionOfNone(key);
    LikeConcat(a + w, [], r, z, key);
  }

  // ---------------------------------------------------------------- what grouping lets survive

  /**
    For a result of the kind of z, from groups behind an earlier value: `groups` are those, or the ends of those, that
    count when everything is united at once; `extra` is what counts as well when the groups are united first, because
    the values of other kinds behind it are hidden within a group.
  */
  datatype Survivors = Survivors(extra: Option<Json>, groups: seq<seq<Json>>)

  function Surviving(x: Option<Json>, gs: seq<seq<Json>>, z: Json, key: Json -> string): Survivors {
    if gs == [] then Survivors(IfLike(x, z), [])
    else
      var s, g := Surviving(x, gs[..|gs| - 1], z, key), gs[|gs| - 1];
      if AllLike(g, z) then s.(groups := s.groups + [g])
      else if !SameKind(g[|g| - 1], z) then Survivors(None, [])
      else Survivors(Union(ToSeq(s.extra) + Tops(s.groups, key), key), [Run(g, z)])
  }

  predicate GroupsLike(gs: seq<seq<Json>>, z: Json) {
    forall i :: 0 <= i < |gs| ==> AllLike(gs[i], z)
  }

  lemma {:induction false} SurvivingMeaning(x: Option<Json>, gs: seq<seq<Json>>, z: Json, key: Json -> string)
    ensures var s := Surviving(x, gs, z, key);
            && GroupsLike(s.groups, z) && (s.extra.Some? ==> SameKind(s.extra.value, z))
            && IfLike(Union(ToSeq(x) + Tops(gs, key), key), z) == Union(ToSeq(s.extra) + Tops(s.groups, key), key)
            && IfLike(Union(Flat(gs), key), z) == Union(Flat(s.groups), key)
    decreases |gs|
  {
    hide AllLike, Union, Tops, Flat, SameKind, Run;
    if gs == [] {
      NothingGrouped(x, z, key);
    } else {
      var before, g := gs[..|gs| - 1], gs[|gs| - 1];
      SurvivingMeaning(x, before, z, key);
      var s := Surviving(x, before, z, key);
      assert gs == before + [g];
      NoneKindless(g, z);
      if AllLike(g, z) {
        OneMoreGroup(x, before, g, s, z, key);
      } else if !SameKind(g[|g| - 1], z) {
        NothingSurvives(x, before, g, z, key);
      } else {
        EndSurvives(x, before, g, s, z, key);
      }
    }
  }

  lemma NoneKindless(g: seq<Json>, z: Json)
    ensures !AllLike(g, z) ==> g != []
  {}

  lemma NothingGrouped(x: Option<Json>, z: Json, key: Json -> string)
    ensures IfLike(Union(ToSeq(x) + Tops([], key), key), z) == Union(ToSeq(IfLike(x, z)) + Tops([], key), key)
    ensures IfLike(Union(Flat([]), key), z) == Union(Flat([]), key)
  {
    assert forall o: Option<Json> :: ToSeq(o) + [] == ToSeq(o);
    if x.Some? {
      assert [x.value][..0] == [];
    }
  }

  lemma {:induction false} SnocGroups(gs: seq<seq<Json>>, g: seq<Json>, key: Json -> string)
    ensures Tops(gs + [g], key) == Tops(gs, key) + ToSeq(Union(g, key))
    ensures Flat(gs + [g]) == Flat(gs) + g
  {
    assert (gs + [g])[..|gs|] == gs;
  }

  lemma {:induction false} OneMoreGroup(
    x: Option<Json>, before: seq<seq<Json>>, g: seq<Json>, s: Survivors, z: Json, key: Json -> string)
    requires AllLike(g, z)
    requires IfLike(Union(ToSeq(x) + Tops(before, key), key), z) == Union(ToSeq(s.extra) + Tops(s.groups, key), key)
    requires IfLike(Union(Flat(before), key), z) == Union(Flat(s.groups), key)
    ensures var gs, hs := before + [g], s.groups + [g];
            && IfLike(Union(ToSeq(x) + Tops(gs, key), key), z) == Union(ToSeq(s.extra) + Tops(hs, key), key)
            && IfLike(Union(Flat(gs), key), z) == Union(Flat(hs), key)
  {
    hide Union, Tops, Flat, Join;
    SnocGroups(before, g, key);
    SnocGroups(s.groups, g, key);
    LikeConcat(Flat(before), Flat(s.groups), g, z, key);
    var a, b, top := ToSeq(x) + Tops(before, key), ToSeq(s.extra) + Tops(s.groups, key), ToSeq(Union(g, key));
    assert AllLike(top, z) by {
      if g != [] {
        UnionKind(g, key);
      } else {
        UnionOfNone(key);
      }
    }
    LikeConcat(a, b, top, z, key);
    assert ToSeq(x) + (Tops(before, key) + top) == a + top;
    assert ToSeq(s.extra) + (Tops(s.groups, key) + top) == b + top;
  }

  lemma {:induction false} NothingSurvives(
    x: Option<Json>, before: seq<seq<Json>>, g: seq<Json>, z: Json, key: Json -> string)
    requires g != [] && !SameKind(g[|g| - 1], z)
    ensures var gs := before + [g];
            && IfLike(Union(ToSeq(x) + Tops(gs, key), key), z) == None
            && IfLike(Union(Flat(gs), key), z) == None
            && Union(ToSeq(None) + Tops([], key), key) == None && Union(Flat([]), key) == None
  {
    hide Union, Join;
    SnocGroups(before, g, key);
    UnionOfNone(key);
    assert ToSeq(None) + Tops([], key) == [];
    UnionKind(g, key);
    var a := ToSeq(x) + (Tops(before, key) + ToSeq(Union(g, key)));
    assert a[|a| - 1] == Union(g, key).value;
    UnionKind(a, key);
    UnionKind(Flat(before) + g, key);
  }

  lemma {:induction false} EndSurvives(
    x: Option<Json>, before: seq<seq<Json>>, g: seq<Json>, s: Survivors, z: Json, key: Json -> string)
    requires !AllLike(g, z) && SameKind(g[|g| - 1], z)
    requires IfLike(Union(ToSeq(x) + Tops(before, key), key), z) == Union(ToSeq(s.extra) + Tops(s.groups, key), key)
    ensures var gs, extra := before + [g], Union(ToSeq(s.extra) + Tops(s.groups, key), key);
            && IfLike(Union(ToSeq(x) + Tops(gs, key), key), z) ==
               Union(ToSeq(extra) + Tops([Run(g, z)], key), key)
            && IfLike(Union(Flat(gs), key), z) == Union(Flat([Run(g, z)]), key)
            && GroupsLike([Run(g, z)], z) && (extra.Some? ==> SameKind(extra.value, z))
  {
    hide Union, Tops, Flat, Run, AllLike;
    var run := Run(g, z);
    SnocGroups(before, g, key);
    OnlyGroup(run, key);
    RunUnion(Flat(before), g, z, key);
    SameTop(g, z, key);
    var a, v := ToSeq(x) + Tops(before, key), Union(g, key).value;
    var extra := IfLike(Union(a, key), z);
    UnionOfOne(extra, key);
    LikeSnoc(a, ToSeq(extra), v, z, key);
    assert ToSeq(x) + (Tops(before, key) + [v]) == a + [v];
    assert GroupsLike([run], z);
  }

  lemma {:induction false} OnlyGroup(g: seq<Json>, key: Json -> string)
    ensures Tops([g], key) == ToSeq(Union(g, key)) && Flat([g]) == g
  {
    SnocGroups([], g, key);
    assert [] + [g] == [g];
  }

  /** The end of a group decides on its union. */
  lemma {:induction false} SameTop(g: seq<Json>, z: Json, key: Json -> string)
    requires !AllLike(g, z) && g != [] && SameKind(g[|g| - 1], z)
    ensures Union(g, key) == Union(Run(g, z), key) && Union(g, key).Some? && SameKind(Union(g, key).value, z)
  {
    hide Union, Run, AllLike;
    RunUnion([], g, z, key);
    assert [] + g == g;
    UnionKind(g, key);
  }

  lemma UnionOfOne(o: Option<Json>, key: Json -> string)
    ensures Union(ToSeq(o), key) == o
  {
    if o.Some? {
      assert [o.value][..0] == [];
    }
  }

  // ---------------------------------------------------------------- lists

  lemma {:induction false} ListsConcat(a: seq<Json>, b: seq<Json>, z: Json, key: Json -> string)
    requires z.List? && AllLike(a + b, z) && a != [] && b != []
    ensures Union(a, key).Some? && Union(b, key).Some?
    ensures Union(a + b, key) == Some(Join(Union(a, key).value, Union(b, key).value, key))
    decreases |b|
  {
    hide Join, Absorbs;
    var b', v := b[..|b| - 1], b[|b| - 1];
    assert a + b == (a + b') + [v] && b == b' + [v];
    assert SameKind((a + b)[|a| + |b| - 1], z);
    UnionKind(a, key);
    assert (a + b)[|a| - 1] == a[|a| - 1];
    UnionSnoc(a + b', v, key);
    UnionSnoc(b', v, key);
    if b' == [] {
      assert a + b' == a;
    } else {
      assert AllLike(a + b', z) by {
        forall i | 0 <= i < |a + b'| ensures SameKind((a + b')[i], z) {
          assert (a + b')[i] == (a + b)[i];
        }
      }
      ListsConcat(a, b', z, key);
      UnionKind(b', key);
      assert (a + b)[|a| + |b'| - 1] == b'[|b'| - 1];
      JoinAssociative(Union(a, key).value, Union(b', key).value, v, key);
    }
  }

  lemma {:induction false} LikeFlat(gs: seq<seq<Json>>, z: Json, key: Json -> string)
    requires GroupsLike(gs, z)
    ensures AllLike(Flat(gs), z) && AllLike(Tops(gs, key), z)
    ensures Flat(gs) == [] <==> Tops(gs, key) == []
    decreases |gs|
  {
    if gs != [] {
      LikeFlat(gs[..|gs| - 1], z, key);
      assert AllLike(gs[|gs| - 1], z);
      if gs[|gs| - 1] != [] {
        UnionKind(gs[|gs| - 1], key);
      } else {
        UnionOfNone(key);
      }
    }
  }

  /** Lists may be united in any grouping. */
  lemma {:induction false} ListsGrouped(gs: seq<seq<Json>>, z: Json, key: Json -> string)
    requires z.List? && GroupsLike(gs, z)
    ensures Union(Tops(gs, key), key) == Union(Flat(gs), key)
    decreases |gs|
  {
    hide Join, Union;
    if gs != [] {
      var before, g := gs[..|gs| - 1], gs[|gs| - 1];
      ListsGrouped(before, z, key);
      LikeFlat(gs, z, key);
      LikeFlat(before, z, key);
      UnionOfNone(key);
      assert AllLike(g, z);
      if g == [] {
        assert Tops(before, key) + [] == Tops(before, key) && Flat(before) + [] == Flat(before);
      } else {
        UnionKind(g, key);
        var top := [Union(g, key).value];
        UnionOfOne(Union(g, key), key);
        if Flat(before) == [] {
          assert [] + top == top && [] + g == g;
        } else {
          ListsConcat(Flat(before), g, z, key);
          ListsConcat(Tops(before, key), top, z, key);
        }
      }
    }
  }

  // ---------------------------------------------------------------- dicts

  function FieldOf(o: Option<Json>, k: string): Option<Json> {
    if o.Some? && o.value.Dict? && k in o.value.fields then Some(o.value.fields[k]) else None
  }

  /** The values under one key, in order. */
  function At(s: seq<Json>, k: string): seq<Json> {
    if s == [] then [] else At(s[..|s| - 1], k) + ToSeq(FieldOf(Some(s[|s| - 1]), k))
  }

  function AtAll(gs: seq<seq<Json>>, k: string): seq<seq<Json>> {
    seq(|gs|, i requires 0 <= i < |gs| => At(gs[i], k))
  }

  /** Two dicts are united key by key. */
  lemma {:induction false} JoinField(u: Json, v: Json, k: string, key: Json -> string)
    requires u.Dict? && v.Dict?
    ensures FieldOf(Some(Join(u, v, key)), k) ==
            if k !in v.fields then FieldOf(Some(u), k)
            else if k !in u.fields then Some(v.fields[k])
            else Some(Join(u.fields[k], v.fields[k], key))
  {}

  /** And so are many. */
  lemma {:induction false} DictsUnion(s: seq<Json>, z: Json, k: string, key: Json -> string)
    requires z.Dict? && AllLike(s, z)
    ensures FieldOf(Union(s, key), k) == Union(At(s, k), key)
    decreases |s|
  {
    hide Union, Join, At;
    if s == [] {
      NothingAt(k);
      UnionOfNone(key);
    } else {
      var before, v := s[..|s| - 1], s[|s| - 1];
      DictsUnion(before, z, k, key);
      assert s == before + [v] && SameKind(v, z);
      AtSnoc(before, v, k);
      UnionSnoc(before, v, key);
      if before != [] {
        UnionKind(before, key);
        assert SameKind(s[|s| - 2], z);
        JoinField(Union(before, key).value, v, k, key);
      }
      UnionOfNone(key);
      if k in v.fields {
        UnionSnoc(At(before, k), v.fields[k], key);
      } else {
        assert At(before, k) + [] == At(before, k);
      }
    }
  }

  lemma {:induction false} AtSnoc(s: seq<Json>, v: Json, k: string)
    ensures At(s + [v], k) == At(s, k) + ToSeq(FieldOf(Some(v), k))
  {
    assert (s + [v])[..|s|] == s;
  }

  lemma {:induction false} AtConcat(a: seq<Json>, b: seq<Json>, k: string)
    ensures At(a + b, k) == At(a, k) + At(b, k)
    decreases |b|
  {
    if b == [] {
      assert a + b == a;
    } else {
      assert (a + b)[..|a + b| - 1] == a + b[..|b| - 1];
      AtConcat(a, b[..|b| - 1], k);
    }
  }

  lemma {:induction false} AtOne(o: Option<Json>, k: string)
    ensures At(ToSeq(o), k) == ToSeq(FieldOf(o, k))
  {
    if o.Some? {
      assert [o.value][..0] == [] && At([], k) == [];
    }
  }

  lemma {:induction false} AtGroups(gs: seq<seq<Json>>, z: Json, k: string, key: Json -> string)
    requires z.Dict? && GroupsLike(gs, z)
    ensures At(Tops(gs, key), k) == Tops(AtAll(gs, k), key) && At(Flat(gs), k) == Flat(AtAll(gs, k))
    decreases |gs|
  {
    hide Union, At, FieldOf;
    if gs == [] {
      NothingAt(k);
    } else {
      var before, g := gs[..|gs| - 1], gs[|gs| - 1];
      AtGroups(before, z, k, key);
      assert AtAll(gs, k)[..|gs| - 1] == AtAll(before, k) && AtAll(gs, k)[|gs| - 1] == At(g, k);
      AtConcat(Flat(before), g, k);
      AtConcat(Tops(before, key), ToSeq(Union(g, key)), k);
      AtOne(Union(g, key), k);
      DictsUnion(g, z, k, key);
    }
  }

  lemma {:induction false} NothingAt(k: string)
    ensures At([], k) == []
  {}

  lemma SameDict(x: Json, y: Json)
    requires x.Dict? && y.Dict?
    ensures x == y <==> forall k :: FieldOf(Some(x), k) == FieldOf(Some(y), k)
  {
    if forall k :: FieldOf(Some(x), k) == FieldOf(Some(y), k) {
      forall k
        ensures k in x.fields <==> k in y.fields
        ensures k in x.fields ==> x.fields[k] == y.fields[k]
      {
        assert FieldOf(Some(x), k) == FieldOf(Some(y), k);
      }
      assert x.fields == y.fields;
    }
  }

  // ---------------------------------------------------------------- the exact condition

  /**
    Uniting the groups first, behind an earlier value, makes no difference to the result z. Nothing can where z is a
    scalar. A list must absorb what survives only by grouping. A dict must have all the keys of what does, and the
    same must hold under every key.
  */
  ghost predicate Regroups(x: Option<Json>, gs: seq<seq<Json>>, z: Json, key: Json -> string)
    decreases z
  {
    var s := Surviving(x, gs, z, key);
    match z
    case Scalar(_) => true
    case List(_) => s.extra.Some? ==> Absorbs(s.extra.value, z, key)
    case Dict(fields) =>
      && (forall k :: FieldOf(s.extra, k).Some? ==> k in fields)
      && forall k :: k in fields ==> Regroups(FieldOf(s.extra, k), AtAll(s.groups, k), fields[k], key)
  }

  lemma {:induction false} RegroupsExactly(x: Option<Json>, gs: seq<seq<Json>>, z: Json, key: Json -> string)
    requires Union(Flat(gs), key) == Some(z)
    ensures Union(ToSeq(x) + Tops(gs, key), key) == Some(z) <==> Regroups(x, gs, z, key)
    decreases z, 1
  {
    hide Union, Tops, Flat, Surviving, Absorbs;
    var s := Surviving(x, gs, z, key);
    SurvivingMeaning(x, gs, z, key);
    LastKind(x, gs, z, key);
    var grouped := Union(ToSeq(s.extra) + Tops(s.groups, key), key);
    assert Union(ToSeq(x) + Tops(gs, key), key) == grouped && Union(Flat(s.groups), key) == Some(z);
    match z
    case Scalar(_) => LastScalar(x, gs, z, key);
    case List(_) => ListsExactly(s, z, key);
    case Dict(_) => DictsExactly(s, z, key);
  }

  /** The last value decides on the kind, grouped or not. */
  lemma {:induction false} LastKind(x: Option<Json>, gs: seq<seq<Json>>, z: Json, key: Json -> string)
    requires Union(Flat(gs), key) == Some(z)
    ensures var grouped := Union(ToSeq(x) + Tops(gs, key), key); grouped.Some? && SameKind(grouped.value, z)
    decreases |gs|
  {
    hide Union, Join;
    UnionOfNone(key);
    var before, g := gs[..|gs| - 1], gs[|gs| - 1];
    if g == [] {
      assert Flat(before) + [] == Flat(before) && Tops(before, key) + [] == Tops(before, key);
      LastKind(x, before, z, key);
    } else {
      UnionKind(g, key);
      UnionKind(Flat(gs), key);
      var a := ToSeq(x) + Tops(gs, key);
      assert a[|a| - 1] == Union(g, key).value;
      UnionKind(a, key);
    }
  }

  lemma {:induction false} LastScalar(x: Option<Json>, gs: seq<seq<Json>>, z: Json, key: Json -> string)
    requires Union(Flat(gs), key) == Some(z) && z.Scalar?
    ensures Union(ToSeq(x) + Tops(gs, key), key) == Some(z)
    decreases |gs|
  {
    var before, g := gs[..|gs| - 1], gs[|gs| - 1];
    if g == [] {
      assert Flat(before) + [] == Flat(before) && Tops(before, key) + [] == Tops(before, key);
      LastScalar(x, before, z, key);
    } else {
      ScalarLast(Flat(gs), key);
      ScalarLast(g, key);
      var a := ToSeq(x) + Tops(gs, key);
      assert a[|a| - 1] == Union(g, key).value == z;
      ScalarLast(a, key);
    }
  }

  lemma {:induction false} ScalarLast(s: seq<Json>, key: Json -> string)
    requires s != []
    ensures Union(s, key).Some? && (s[|s| - 1].Scalar? <==> Union(s, key).value.Scalar?)
    ensures s[|s| - 1].Scalar? ==> Union(s, key).value == s[|s| - 1]
  {}

  lemma {:induction false} ListsExactly(s: Survivors, z: Json, key: Json -> string)
    requires z.List? && GroupsLike(s.groups, z) && Union(Flat(s.groups), key) == Some(z)
    requires s.extra.Some? ==> SameKind(s.extra.value, z)
    ensures Union(ToSeq(s.extra) + Tops(s.groups, key), key) == Some(z) <==>
            (s.extra.Some? ==> Absorbs(s.extra.value, z, key))
  {
    hide Union, Tops, Flat, Join, Absorbs;
    var tops := Tops(s.groups, key);
    ListsGrouped(s.groups, z, key);
    LikeFlat(s.groups, z, key);
    UnionOfNone(key);
    if s.extra.Some? {
      var extra := s.extra.value;
      assert AllLike([extra] + tops, z);
      ListsConcat([extra], tops, z, key);
      UnionOfOne(s.extra, key);
      JoinAbsorbs(extra, z, key);
    } else {
      assert [] + tops == tops;
    }
  }

  lemma {:induction false} DictsExactly(s: Survivors, z: Json, key: Json -> string)
    requires z.Dict? && GroupsLike(s.groups, z) && Union(Flat(s.groups), key) == Some(z)
    requires s.extra.Some? ==> SameKind(s.extra.value, z)
    ensures Union(ToSeq(s.extra) + Tops(s.groups, key), key) == Some(z) <==>
            && (forall k :: FieldOf(s.extra, k).Some? ==> k in z.fields)
            && forall k :: k in z.fields ==> Regroups(FieldOf(s.extra, k), AtAll(s.groups, k), z.fields[k], key)
    decreases z, 0
  {
    hide Union, Tops, Flat, Join, At, Regroups, AtAll;
    var all := ToSeq(s.extra) + Tops(s.groups, key);
    var grouped := Union(all, key);
    LikeFlat(s.groups, z, key);
    UnionOfNone(key);
    assert AllLike(all, z);
    UnionKind(all, key);
    SameDict(grouped.value, z);
    forall k
      ensures FieldOf(grouped, k) == FieldOf(Some(z), k) <==>
              if k in z.fields then Regroups(FieldOf(s.extra, k), AtAll(s.groups, k), z.fields[k], key)
              else FieldOf(s.extra, k).None?
    {
      OneKey(s, z, k, key);
      var x, hs := FieldOf(s.extra, k), AtAll(s.groups, k);
      if k in z.fields {
        RegroupsExactly(x, hs, z.fields[k], key);
      } else {
        NothingUnder(hs, key);
        assert ToSeq(x) + [] == ToSeq(x);
        UnionOfOne(x, key);
      }
    }
  }

  lemma {:induction false} OneKey(s: Survivors, z: Json, k: string, key: Json -> string)
    requires z.Dict? && GroupsLike(s.groups, z) && Union(Flat(s.groups), key) == Some(z)
    requires s.extra.Some? ==> SameKind(s.extra.value, z)
    ensures var x, hs := FieldOf(s.extra, k), AtAll(s.groups, k);
            && FieldOf(Union(ToSeq(s.extra) + Tops(s.groups, key), key), k) == Union(ToSeq(x) + Tops(hs, key), key)
            && FieldOf(Some(z), k) == Union(Flat(hs), key)
  {
    hide Union, Tops, Flat, At, AtAll, FieldOf;
    var all := ToSeq(s.extra) + Tops(s.groups, key);
    LikeFlat(s.groups, z, key);
    assert AllLike(all, z);
    DictsUnion(all, z, k, key);
    DictsUnion(Flat(s.groups), z, k, key);
    AtConcat(ToSeq(s.extra), Tops(s.groups, key), k);
    AtOne(s.extra, k);
    AtGroups(s.groups, z, k, key);
  }

  lemma {:induction false} NothingUnder(gs: seq<seq<Json>>, key: Json -> string)
    requires Union(Flat(gs), key) == None
    ensures Tops(gs, key) == []
    decreases |gs|
  {
    if Flat(gs) != [] {
      UnionKind(Flat(gs), key);
    }
    if gs != [] {
      assert gs[|gs| - 1] == [] && Flat(gs[..|gs| - 1]) == [];
      UnionOfNone(key);
      NothingUnder(gs[..|gs| - 1], key);
    }
  }

  // ---------------------------------------------------------------- batches of evidence

  function Summaries(es: seq<Item>): seq<Json> {
    seq(|es|, i requires 0 <= i < |es| => Dict(es[i].summary))
  }

  function Merged(batches: seq<seq<Item>>, key: Json -> string): seq<seq<Item>> {
    seq(|batches|, i requires 0 <= i < |batches| => Merge(batches[i], key))
  }

  /** The summaries for one (rule, host), batch by batch. */
  function GroupsOf(batches: seq<seq<Item>>, k: RowKey): seq<seq<Json>> {
    seq(|batches|, i requires 0 <= i < |batches| => Summaries(Of(batches[i], k)))
  }

  lemma {:induction false} UnionOfSummaries(es: seq<Item>, key: Json -> string)
    requires es != []
    ensures Union(Summaries(es), key) == Some(Dict(UnionAll(es, key)))
    decreases |es|
  {
    hide DeepUnion, Join;
    var before, e := es[..|es| - 1], es[|es| - 1];
    assert Summaries(es) == Summaries(before) + [Dict(e.summary)];
    UnionSnoc(Summaries(before), Dict(e.summary), key);
    if before != [] {
      UnionOfSummaries(before, key);
      JoinOfDicts(UnionAll(before, key), e.summary, key);
    }
  }

  lemma SummariesOfConcat(a: seq<Item>, b: seq<Item>)
    ensures Summaries(a + b) == Summaries(a) + Summaries(b)
  {}

  lemma SnocBatches(batches: seq<seq<Item>>, k: RowKey, key: Json -> string)
    requires batches != []
    ensures var before, b := batches[..|batches| - 1], batches[|batches| - 1];
            && Flatten(batches) == Flatten(before) + b
            && Flatten(Merged(batches, key)) == Flatten(Merged(before, key)) + Merge(b, key)
            && GroupsOf(batches, k) == GroupsOf(before, k) + [Summaries(Of(b, k))]
  {
    hide Merge, Of;
    var n := |batches| - 1;
    assert Merged(batches, key)[..n] == Merged(batches[..n], key) && Merged(batches, key)[n] == Merge(batches[n], key);
  }

  /** The summaries of all the evidence, and of the merged batches. */
  lemma {:induction false} SummariesOf(batches: seq<seq<Item>>, k: RowKey, key: Json -> string)
    ensures Summaries(Of(Flatten(batches), k)) == Flat(GroupsOf(batches, k))
    ensures Summaries(Of(Flatten(Merged(batches, key)), k)) == Tops(GroupsOf(batches, k), key)
    decreases |batches|
  {
    hide Merge, Of, Union, UnionAll, Flatten;
    if batches == [] {
      NoBatches(k, key);
    } else {
      var before, b := batches[..|batches| - 1], batches[|batches| - 1];
      SummariesOf(before, k, key);
      SnocBatches(batches, k, key);
      SnocGroups(GroupsOf(before, k), Summaries(Of(b, k)), key);
      OfOfConcat(Flatten(before), b, k);
      OfOfConcat(Flatten(Merged(before, key)), Merge(b, key), k);
      SummariesOfConcat(Of(Flatten(before), k), Of(b, k));
      SummariesOfConcat(Of(Flatten(Merged(before, key)), k), Of(Merge(b, key), k));
      OfMerged(b, k, key);
      UnionOfNone(key);
      if Of(b, k) != [] {
        UnionOfSummaries(Of(b, k), key);
      }
    }
  }

  lemma {:induction false} NoBatches(k: RowKey, key: Json -> string)
    ensures Flatten([]) == [] && Of([], k) == [] && Merged([], key) == [] && GroupsOf([], k) == []
    ensures Flat([]) == [] && Tops([], key) == []
  {}

  lemma {:induction false} KeysOfMerged(batches: seq<seq<Item>>, key: Json -> string)
    ensures RowKeys(Flatten(Merged(batches, key))) == RowKeys(Flatten(batches))
    decreases |batches|
  {
    hide Merge, Of, Dedup, Flatten, Row;
    var none: RowKey := (None, None);
    if batches == [] {
      NoBatches(none, key);
    } else {
      var before, b := batches[..|batches| - 1], batches[|batches| - 1];
      var f, m := Flatten(before), Flatten(Merged(before, key));
      KeysOfMerged(before, key);
      SnocBatches(batches, none, key);
      MergeMeaning(b, key);
      RowsKeys(Merge(b, key), b, key);
      assert Keys(m + Merge(b, key)) == Keys(m) + RowKeys(b) && Keys(f + b) == Keys(f) + Keys(b);
      DedupParts(Keys(m), Keys(b), Itself);
      DedupParts(Keys(f), Keys(b), Itself);
    }
  }

  function ButSummary(row: Item): Item {
    row.(summary := map[])
  }

  lemma {:induction false} RowOfTwo(a: seq<Item>, a': seq<Item>, b: seq<Item>, key: Json -> string)
    requires a != [] && a' != [] && b != [] && ButSummary(Row(a', key)) == ButSummary(Row(a, key))
    ensures ButSummary(Row(a' + [Row(b, key)], key)) == ButSummary(Row(a + b, key))
  {
    hide UnionAll, MaxCount, AllExemplars, DeepUnion;
    RowExtended(a', Row(b, key), key);
    MaxParts(a, b);
    ExemplarsParts(a, b);
    FirstTenParts(AllExemplars(a), AllExemplars(b));
    FirstTenMore(FirstTen(AllExemplars(a)), FirstTen(AllExemplars(b)));
    FirstTenParts(AllExemplars(a), []);
  }

  /** All of a row but its summary is the same, whether batches were merged first or not. */
  lemma {:induction false} RowsButSummaries(batches: seq<seq<Item>>, k: RowKey, key: Json -> string)
    ensures var all, parts := Of(Flatten(batches), k), Of(Flatten(Merged(batches, key)), k);
            && (all == [] <==> parts == [])
            && (all != [] ==> ButSummary(Row(parts, key)) == ButSummary(Row(all, key)))
    decreases |batches|
  {
    hide Merge, Of, Row, Flatten;
    if batches == [] {
      NoBatches(k, key);
    } else {
      var before, b := batches[..|batches| - 1], batches[|batches| - 1];
      var f, m := Flatten(before), Flatten(Merged(before, key));
      RowsButSummaries(before, k, key);
      SnocBatches(batches, k, key);
      OfOfConcat(f, b, k);
      OfOfConcat(m, Merge(b, key), k);
      OfMerged(b, k, key);
      var a, a', c := Of(f, k), Of(m, k), Of(b, k);
      if c == [] {
        assert a + [] == a && a' + [] == a';
      } else if a == [] {
        assert [] + c == c && [] + [Row(c, key)] == [Row(c, key)];
        RowTwice(c, key);
      } else {
        RowOfTwo(a, a', c, key);
      }
    }
  }

  /** Merging the batches first leaves the row of this (rule, host) as it is. */
  ghost predicate Undisturbed(batches: seq<seq<Item>>, k: RowKey, key: Json -> string) {
    var all := Of(Flatten(batches), k);
    all != [] ==> Regroups(None, GroupsOf(batches, k), Dict(UnionAll(all, key)), key)
  }

  lemma {:induction false} SameRowExactly(batches: seq<seq<Item>>, k: RowKey, key: Json -> string)
    requires Of(Flatten(batches), k) != []
    ensures Of(Flatten(Merged(batches, key)), k) != []
    ensures Row(Of(Flatten(Merged(batches, key)), k), key) == Row(Of(Flatten(batches), k), key) <==>
            Undisturbed(batches, k, key)
  {
    hide Merge, Of, Flatten, Union, Regroups, UnionAll, MaxCount, AllExemplars, Merged, GroupsOf, Tops, Flat;
    var all, parts := Of(Flatten(batches), k), Of(Flatten(Merged(batches, key)), k);
    RowsButSummaries(batches, k, key);
    SummariesOf(batches, k, key);
    UnionOfSummaries(all, key);
    UnionOfSummaries(parts, key);
    RegroupsExactly(None, GroupsOf(batches, k), Dict(UnionAll(all, key)), key);
    assert ToSeq(None) + Tops(GroupsOf(batches, k), key) == Tops(GroupsOf(batches, k), key);
  }

  /**
    For any batches whatever: merging the merged batches is merging everything at once - rows, contents and order -
    exactly if no row is disturbed.
  */
  lemma {:induction false} MergeGroupingExactly(batches: seq<seq<Item>>, key: Json -> string)
    ensures Merge(Flatten(Merged(batches, key)), key) == Merge(Flatten(batches), key) <==>
            forall k :: Undisturbed(batches, k, key)
  {
    hide Merge, Of, Flatten, Undisturbed, Row, RowKeys, Merged;
    var all, parts := Flatten(batches), Flatten(Merged(batches, key));
    var x, y := Merge(parts, key), Merge(all, key);
    KeysOfMerged(batches, key);
    MergeMeaning(parts, key);
    MergeMeaning(all, key);
    forall i | 0 <= i < |y|
      ensures x[i] == y[i] <==> Undisturbed(batches, RowKeys(all)[i], key)
    {
      SameRowExactly(batches, RowKeys(all)[i], key);
    }
    if x == y {
      forall k
        ensures Undisturbed(batches, k, key)
      {
        RowKeysIn(all, k);
        OfKeys(all, k);
        if k in RowKeys(all) {
          var i :| 0 <= i < |y| && RowKeys(all)[i] == k;
        } else {
          NoEvidence(batches, k, key);
        }
      }
    }
  }

  lemma {:induction false} NoEvidence(batches: seq<seq<Item>>, k: RowKey, key: Json -> string)
    requires Of(Flatten(batches), k) == []
    ensures Undisturbed(batches, k, key)
  {}

  /** A single batch may always be merged first, and more evidence added to the result piece by piece. */
  lemma {:induction false} IncrementalMerge(x: seq<Item>, y: seq<Item>, key: Json -> string)
    ensures Merge(Merge(x, key) + y, key) == Merge(x + y, key)
    decreases |y|
  {
    hide Insert;
    if y == [] {
      assert Merge(x, key) + [] == Merge(x, key) && x + [] == x;
      MergeTwice(x, key);
    } else {
      var y', e := y[..|y| - 1], y[|y| - 1];
      IncrementalMerge(x, y', key);
      assert Merge(x, key) + y == (Merge(x, key) + y') + [e] && x + y == (x + y') + [e];
      assert ((Merge(x, key) + y') + [e])[..|Merge(x, key) + y'|] == Merge(x, key) + y';
      assert ((x + y') + [e])[..|x + y'|] == x + y';
    }
  }

  lemma {:induction false} MergeTwice(x: seq<Item>, key: Json -> string)
    ensures Merge(Merge(x, key), key) == Merge(x, key)
  {
    hide Merge, Of, Row, UnionAll, Regroups, Union;
    var batches := [x];
    assert batches[..0] == [];
    SnocBatches(batches, (None, None), key);
    NoBatches((None, None), key);
    assert [] + x == x && [] + Merge(x, key) == Merge(x, key);
    forall k
      ensures Undisturbed(batches, k, key)
    {
      if Of(x, k) != [] {
        SnocBatches(batches, k, key);
        NoBatches(k, key);
        var g := Summaries(Of(x, k));
        assert GroupsOf(batches, k) == [g];
        OnlyGroup(g, key);
        UnionOfSummaries(Of(x, k), key);
        UnionOfOne(Union(g, key), key);
        assert ToSeq(None) + Tops([g], key) == Tops([g], key);
        RegroupsExactly(None, [g], Dict(UnionAll(Of(x, k), key)), key);
      }
    }
    MergeGroupingExactly(batches, key);
  }
}
