/** Augmentation of the mapping set against a reference JAR: every member of
    a reference class that is already mapped gets a placeholder target if it
    has none, and an unmapped package-less (or `none`-packaged) reference
    class gets a synthesised class name. Existing entries are never
    overwritten and no key is removed. */
module Augmentation {
  import opened Names
  import opened MappingTree

  /** What the reference JAR yields for one class file: its binary name and
      the (name, descriptor) of each field and each method. */
  datatype RefClass = RefClass(name: string, fields: seq<Sig>, methods: seq<Sig>)
  {
    function Sigs(kind: Kind): seq<Sig>
    {
      if kind == Field then fields else methods
    }
  }

  /** The member loop over `sigs`: each signature not yet mapped gets the
      placeholder built from its name; mapped ones keep their target. */
  function FillMissing(m: map<Sig, string>, sigs: seq<Sig>, tag: string): map<Sig, string>
    decreases |sigs|
  {
    if sigs == [] then m
    else
      var n := |sigs| - 1;
      var prev := FillMissing(m, sigs[..n], tag);
      if sigs[n] in prev then prev else prev[sigs[n] := Placeholder(tag, sigs[n].name)]
  }

  /** Every listed signature ends up mapped and nothing else is added; an
      existing target is never overwritten; an added target is the
      placeholder `XX_<tag>_<name>_XX`. */
  lemma {:induction false} FillMissingSpec(m: map<Sig, string>, sigs: seq<Sig>, tag: string)
    ensures var r := FillMissing(m, sigs, tag);
      && (forall s :: s in r <==> s in m || s in sigs)
      && (forall s :: s in m ==> r[s] == m[s])
      && (forall s :: s in r && s !in m ==> r[s] == Placeholder(tag, s.name))
    decreases |sigs|
  {
    if sigs != [] {
      var n := |sigs| - 1;
      assert sigs == sigs[..n] + [sigs[n]];
      FillMissingSpec(m, sigs[..n], tag);
    }
  }

  /** When every listed signature is already mapped, the member loop changes nothing. */
  lemma FillMissingNoop(m: map<Sig, string>, sigs: seq<Sig>, tag: string)
    requires forall s :: s in sigs ==> s in m
    ensures FillMissing(m, sigs, tag) == m
  {
    FillMissingSpec(m, sigs, tag);
  }

  function FillMembers(c: ClassMapping, kind: Kind, sigs: seq<Sig>, tag: string): ClassMapping
  {
    c.WithMembers(kind, FillMissing(c.Members(kind), sigs, tag))
  }

  /** The class-creation guard: a package-less name, or, under the "append
      none" policy, a name starting with `none` (not necessarily `none/`). */
  predicate Eligible(name: string, appendNone: bool)
  {
    '/' !in name || (appendNone && StartsWith(name, "none"))
  }

  /** One reference class. */
  function AugmentClass(t: Table, rc: RefClass, tag: string, appendNone: bool): Table
  {
    if rc.name in t then
      t[rc.name := FillMembers(FillMembers(t[rc.name], Field, rc.fields, tag), Method, rc.methods, tag)]
    else if Eligible(rc.name, appendNone) then
      WithClassName(t, rc.name, SyntheticClassName(tag, rc.name, appendNone))
    else
      t
  }

  /** The reference classes in order. */
  function AugmentAll(t: Table, refs: seq<RefClass>, tag: string, appendNone: bool): Table
    decreases |refs|
  {
    if refs == [] then t
    else AugmentClass(AugmentAll(t, refs[..|refs| - 1], tag, appendNone), refs[|refs| - 1], tag, appendNone)
  }

  // ---------------------------------------------------------------------
  // Monotonicity: augmentation only adds
  // ---------------------------------------------------------------------

  /** `m2` keeps every entry of `m` and every entry it adds is a placeholder. */
  ghost predicate MembersExtend(m: map<Sig, string>, m2: map<Sig, string>, tag: string)
  {
    && (forall s :: s in m ==> s in m2 && m2[s] == m[s])
    && (forall s :: s in m2 && s !in m ==> m2[s] == Placeholder(tag, s.name))
  }

  /** A mapped class after augmentation: same name, same member targets,
      only placeholder members added. */
  ghost predicate ClassExtends(c: ClassMapping, c2: ClassMapping, tag: string)
  {
    && c2.deobfName == c.deobfName
    && MembersExtend(c.fields, c2.fields, tag)
    && MembersExtend(c.methods, c2.methods, tag)
  }

  /** A class created by augmentation: it passes the guard, carries the
      synthesised name and has only placeholder members. */
  ghost predicate CreatedClass(k: string, c2: ClassMapping, tag: string, appendNone: bool)
  {
    && Eligible(k, appendNone)
    && c2.deobfName == Some(SyntheticClassName(tag, k, appendNone))
    && MembersExtend(map[], c2.fields, tag)
    && MembersExtend(map[], c2.methods, tag)
  }

  /** `r` extends `t` as augmentation may: no key is removed, mapped classes
      only gain placeholder members, new classes are created ones. */
  ghost predicate Extends(t: Table, r: Table, tag: string, appendNone: bool)
  {
    && t.Keys <= r.Keys
    && (forall k :: k in t ==> ClassExtends(t[k], r[k], tag))
    && (forall k :: k in r && k !in t ==> CreatedClass(k, r[k], tag, appendNone))
  }

  lemma ClassExtendsTransitive(c1: ClassMapping, c2: ClassMapping, c3: ClassMapping, tag: string)
    requires ClassExtends(c1, c2, tag) && ClassExtends(c2, c3, tag)
    ensures ClassExtends(c1, c3, tag)
  {
  }

  lemma CreatedClassExtended(k: string, c2: ClassMapping, c3: ClassMapping, tag: string, appendNone: bool)
    requires CreatedClass(k, c2, tag, appendNone) && ClassExtends(c2, c3, tag)
    ensures CreatedClass(k, c3, tag, appendNone)
  {
  }

  lemma ExtendsTransitive(t1: Table, t2: Table, t3: Table, tag: string, appendNone: bool)
    requires Extends(t1, t2, tag, appendNone) && Extends(t2, t3, tag, appendNone)
    ensures Extends(t1, t3, tag, appendNone)
  {
    forall k | k in t1 ensures ClassExtends(t1[k], t3[k], tag) {
      ClassExtendsTransitive(t1[k], t2[k], t3[k], tag);
    }
    forall k | k in t3 && k !in t1 ensures CreatedClass(k, t3[k], tag, appendNone) {
      if k in t2 {
        CreatedClassExtended(k, t2[k], t3[k], tag, appendNone);
      }
    }
  }

  lemma FillMembersExtends(c: ClassMapping, kind: Kind, sigs: seq<Sig>, tag: string)
    ensures ClassExtends(c, FillMembers(c, kind, sigs, tag), tag)
  {
    var c2 := FillMembers(c, kind, sigs, tag);
    FillMissingSpec(c.Members(kind), sigs, tag);
    assert c2.Members(kind) == FillMissing(c.Members(kind), sigs, tag);
    assert c2.Members(Other(kind)) == c.Members(Other(kind));
    if kind == Field {
      assert c2.methods == c.methods;
    } else {
      assert c2.fields == c.fields;
    }
  }

  lemma AugmentClassExtends(t: Table, rc: RefClass, tag: string, appendNone: bool)
    ensures Extends(t, AugmentClass(t, rc, tag, appendNone), tag, appendNone)
  {
    var r := AugmentClass(t, rc, tag, appendNone);
    if rc.name in t {
      var c1 := FillMembers(t[rc.name], Field, rc.fields, tag);
      FillMembersExtends(t[rc.name], Field, rc.fields, tag);
      FillMembersExtends(c1, Method, rc.methods, tag);
      ClassExtendsTransitive(t[rc.name], c1, r[rc.name], tag);
    } else if Eligible(rc.name, appendNone) {
      assert r[rc.name] == ClassMapping(Some(SyntheticClassName(tag, rc.name, appendNone)), map[], map[]);
    }
  }

  /** Augmentation never overwrites and never removes; everything it adds is
      a conspicuous placeholder, and a class it creates passes the guard and
      carries the synthesised name. */
  lemma {:induction false} AugmentExtends(t: Table, refs: seq<RefClass>, tag: string, appendNone: bool)
    ensures Extends(t, AugmentAll(t, refs, tag, appendNone), tag, appendNone)
    decreases |refs|
  {
    if refs != [] {
      var n := |refs| - 1;
      var mid := AugmentAll(t, refs[..n], tag, appendNone);
      AugmentExtends(t, refs[..n], tag, appendNone);
      AugmentClassExtends(mid, refs[n], tag, appendNone);
      ExtendsTransitive(t, mid, AugmentAll(t, refs, tag, appendNone), tag, appendNone);
    }
  }

  /** One reference class touches only the key of its own name. */
  lemma AugmentClassFrame(t: Table, rc: RefClass, tag: string, appendNone: bool, k: string)
    requires k != rc.name
    ensures var r := AugmentClass(t, rc, tag, appendNone);
      (k in r <==> k in t) && (k in t ==> r[k] == t[k])
  {
  }

  /** Only the names of reference classes are touched: a class augmentation
      creates is named by one, and a class none names is left as it was. */
  lemma {:induction false} AugmentTouchesOnlyNamed(t: Table, refs: seq<RefClass>, tag: string, appendNone: bool, k: string)
    requires forall i :: 0 <= i < |refs| ==> refs[i].name != k
    ensures var r := AugmentAll(t, refs, tag, appendNone);
      (k in r <==> k in t) && (k in t ==> r[k] == t[k])
    decreases |refs|
  {
    if refs != [] {
      var n := |refs| - 1;
      AugmentTouchesOnlyNamed(t, refs[..n], tag, appendNone, k);
      AugmentClassFrame(AugmentAll(t, refs[..n], tag, appendNone), refs[n], tag, appendNone, k);
    }
  }

  // ---------------------------------------------------------------------
  // Coverage: what ends up mapped
  // ---------------------------------------------------------------------

  /** One reference class keeps every class and every member mapping. */
  lemma AugmentClassKeeps(t: Table, rc: RefClass, tag: string, appendNone: bool, k: string, s: Sig)
    requires k in t
    ensures var r := AugmentClass(t, rc, tag, appendNone);
      && k in r
      && (s in t[k].fields ==> s in r[k].fields)
      && (s in t[k].methods ==> s in r[k].methods)
  {
    if rc.name == k {
      var c1 := FillMembers(t[k], Field, rc.fields, tag);
      FillMissingSpec(t[k].fields, rc.fields, tag);
      FillMissingSpec(c1.methods, rc.methods, tag);
    }
  }

  /** Augmentation keeps every class and every member mapping. */
  lemma {:induction false} AugmentKeeps(t: Table, refs: seq<RefClass>, tag: string, appendNone: bool, k: string, s: Sig)
    requires k in t
    ensures var r := AugmentAll(t, refs, tag, appendNone);
      && k in r
      && (s in t[k].fields ==> s in r[k].fields)
      && (s in t[k].methods ==> s in r[k].methods)
    decreases |refs|
  {
    if refs != [] {
      var n := |refs| - 1;
      AugmentKeeps(t, refs[..n], tag, appendNone, k, s);
      AugmentClassKeeps(AugmentAll(t, refs[..n], tag, appendNone), refs[n], tag, appendNone, k, s);
    }
  }

  /** A class augmentation creates passes the guard. */
  lemma {:induction false} AugmentCreatesEligible(t: Table, refs: seq<RefClass>, tag: string, appendNone: bool, k: string)
    ensures var r := AugmentAll(t, refs, tag, appendNone);
      k in r && k !in t ==> Eligible(k, appendNone)
    decreases |refs|
  {
    if refs != [] {
      var n := |refs| - 1;
      AugmentCreatesEligible(t, refs[..n], tag, appendNone, k);
    }
  }

  /** After augmentation, a reference class that was mapped has every one of
      its field and method signatures mapped. */
  lemma {:induction false} AugmentCoversMapped(t: Table, refs: seq<RefClass>, tag: string, appendNone: bool, i: int, s: Sig)
    requires 0 <= i < |refs| && refs[i].name in t
    ensures var r, rc := AugmentAll(t, refs, tag, appendNone), refs[i];
      && rc.name in r
      && (s in rc.fields ==> s in r[rc.name].fields)
      && (s in rc.methods ==> s in r[rc.name].methods)
    decreases |refs|
  {
    var n := |refs| - 1;
    var p := refs[..n];
    var mid := AugmentAll(t, p, tag, appendNone);
    var rc := refs[i];
    if i < n {
      assert p[i] == rc;
      AugmentCoversMapped(t, p, tag, appendNone, i, s);
      AugmentClassKeeps(mid, refs[n], tag, appendNone, rc.name, s);
    } else {
      AugmentKeeps(t, p, tag, appendNone, rc.name, s);
      var c1 := FillMembers(mid[rc.name], Field, rc.fields, tag);
      FillMissingSpec(mid[rc.name].fields, rc.fields, tag);
      FillMissingSpec(c1.methods, rc.methods, tag);
    }
  }

  /** After augmentation, a reference class that was not mapped is mapped
      exactly when it passes the guard. */
  lemma {:induction false} AugmentCoversUnmapped(t: Table, refs: seq<RefClass>, tag: string, appendNone: bool, i: int)
    requires 0 <= i < |refs| && refs[i].name !in t
    ensures refs[i].name in AugmentAll(t, refs, tag, appendNone) <==> Eligible(refs[i].name, appendNone)
    decreases |refs|
  {
    var n := |refs| - 1;
    var p := refs[..n];
    var mid := AugmentAll(t, p, tag, appendNone);
    var name := refs[i].name;
    if name in mid {
      AugmentCreatesEligible(t, p, tag, appendNone, name);
      AugmentClassKeeps(mid, refs[n], tag, appendNone, name, Sig("", ""));
    } else if i < n {
      assert p[i] == refs[i];
      AugmentCoversUnmapped(t, p, tag, appendNone, i);
      if refs[n].name != name {
        AugmentClassFrame(mid, refs[n], tag, appendNone, name);
      }
    }
  }

  // ---------------------------------------------------------------------
  // Running augmentation again
  // ---------------------------------------------------------------------

  /** Every reference class is either mapped with all its signatures, or
      unmapped and rejected by the guard: augmentation has nothing to add. */
  ghost predicate Covered(t: Table, refs: seq<RefClass>, appendNone: bool)
  {
    forall i :: 0 <= i < |refs| ==>
      if refs[i].name in t then
        && (forall s :: s in refs[i].fields ==> s in t[refs[i].name].fields)
        && (forall s :: s in refs[i].methods ==> s in t[refs[i].name].methods)
      else !Eligible(refs[i].name, appendNone)
  }

  /** A covered table is a fixed point of augmentation. */
  lemma {:induction false} CoveredIsFixedPoint(t: Table, refs: seq<RefClass>, tag: string, appendNone: bool)
    requires Covered(t, refs, appendNone)
    ensures AugmentAll(t, refs, tag, appendNone) == t
    decreases |refs|
  {
    if refs != [] {
      var n := |refs| - 1;
      var p := refs[..n];
      assert Covered(t, p, appendNone) by {
        forall i | 0 <= i < |p| ensures p[i] == refs[i] { }
      }
      CoveredIsFixedPoint(t, p, tag, appendNone);
      var rc := refs[n];
      if rc.name in t {
        FillMissingNoop(t[rc.name].fields, rc.fields, tag);
        FillMissingNoop(t[rc.name].methods, rc.methods, tag);
        assert t[rc.name := t[rc.name]] == t;
      }
    }
  }

  /** Idempotence for the classes that were mapped before the first run: a
      second run changes nothing about them. */
  lemma {:induction false} IdempotentOnMappedClasses(t: Table, refs: seq<RefClass>, tag: string, appendNone: bool, k: string)
    requires k in t
    ensures var r1 := AugmentAll(t, refs, tag, appendNone);
      var r2 := AugmentAll(r1, refs, tag, appendNone);
      k in r1 && k in r2 && r2[k] == r1[k]
  {
    var r1 := AugmentAll(t, refs, tag, appendNone);
    AugmentKeeps(t, refs, tag, appendNone, k, Sig("", ""));
    SecondRunKeeps(t, r1, refs, |refs|, tag, appendNone, k);
    assert refs[..|refs|] == refs;
  }

  /** A class left as it was by the member loops of one reference class. */
  lemma FillMembersNoop(c: ClassMapping, rc: RefClass, tag: string)
    requires forall s :: s in rc.fields ==> s in c.fields
    requires forall s :: s in rc.methods ==> s in c.methods
    ensures FillMembers(FillMembers(c, Field, rc.fields, tag), Method, rc.methods, tag) == c
  {
    FillMissingNoop(c.fields, rc.fields, tag);
    FillMissingNoop(c.methods, rc.methods, tag);
  }

  /** Induction for IdempotentOnMappedClasses over the reference classes
      seen so far in the second run. */
  lemma {:induction false} SecondRunKeeps(t: Table, r1: Table, refs: seq<RefClass>, n: nat, tag: string, appendNone: bool, k: string)
    requires r1 == AugmentAll(t, refs, tag, appendNone)
    requires k in t && k in r1 && n <= |refs|
    ensures var q := AugmentAll(r1, refs[..n], tag, appendNone); k in q && q[k] == r1[k]
  {
    if n > 0 {
      SecondRunKeeps(t, r1, refs, n - 1, tag, appendNone, k);
      var p := refs[..n];
      assert p[..n - 1] == refs[..n - 1];
      var q' := AugmentAll(r1, refs[..n - 1], tag, appendNone);
      var rc := refs[n - 1];
      assert AugmentAll(r1, p, tag, appendNone) == AugmentClass(q', rc, tag, appendNone);
      if rc.name == k {
        forall s ensures (s in rc.fields ==> s in r1[k].fields) && (s in rc.methods ==> s in r1[k].methods) {
          AugmentCoversMapped(t, refs, tag, appendNone, n - 1, s);
        }
        FillMembersNoop(q'[k], rc, tag);
      } else {
        AugmentClassFrame(q', rc, tag, appendNone, k);
      }
    }
  }

  /** After two runs, a third changes nothing: the only classes a second run
      still changes are those the first run created. */
  lemma StableAfterTwoRuns(t: Table, refs: seq<RefClass>, tag: string, appendNone: bool)
    ensures var r2 := AugmentAll(AugmentAll(t, refs, tag, appendNone), refs, tag, appendNone);
      AugmentAll(r2, refs, tag, appendNone) == r2
  {
    var r1 := AugmentAll(t, refs, tag, appendNone);
    var r2 := AugmentAll(r1, refs, tag, appendNone);
    forall i | 0 <= i < |refs|
      ensures if refs[i].name in r2 then
          && (forall s :: s in refs[i].fields ==> s in r2[refs[i].name].fields)
          && (forall s :: s in refs[i].methods ==> s in r2[refs[i].name].methods)
        else !Eligible(refs[i].name, appendNone)
    {
      var name := refs[i].name;
      if name in t {
        AugmentKeeps(t, refs, tag, appendNone, name, Sig("", ""));
      }
      if name in r1 {
        AugmentCoversMapped(r1, refs, tag, appendNone, i, Sig("", ""));
        forall s ensures (s in refs[i].fields ==> s in r2[name].fields) && (s in refs[i].methods ==> s in r2[name].methods) {
          AugmentCoversMapped(r1, refs, tag, appendNone, i, s);
        }
      } else {
        AugmentCoversUnmapped(t, refs, tag, appendNone, i);
        AugmentCoversUnmapped(r1, refs, tag, appendNone, i);
      }
    }
    CoveredIsFixedPoint(r2, refs, tag, appendNone);
  }

  /** Full idempotence does not hold: a class created by the first run gets
      its member placeholders only in the second. */
  lemma SecondRunFillsCreatedClass()
    ensures var refs := [RefClass("a", [Sig("b", "I")], [])];
      var r1 := AugmentAll(map[], refs, "tag", false);
      var r2 := AugmentAll(r1, refs, "tag", false);
      && r1 == map["a" := ClassMapping(Some(SyntheticClassName("tag", "a", false)), map[], map[])]
      && "a" in r2
      && r2["a"].deobfName == r1["a"].deobfName
      && r2["a"].fields == map[Sig("b", "I") := Placeholder("tag", "b")]
      && r2 != r1
  {
    var refs := [RefClass("a", [Sig("b", "I")], [])];
    assert refs[..0] == [];
    var r1 := AugmentAll(map[], refs, "tag", false);
    assert r1 == map["a" := ClassMapping(Some(SyntheticClassName("tag", "a", false)), map[], map[])];
    var r2 := AugmentAll(r1, refs, "tag", false);
    assert [Sig("b", "I")][..0] == [];
    assert Sig("b", "I") in r2["a"].fields;
  }

  /** With distinct reference names (one class file per name), a class that
      augmentation creates has no member entries. */
  lemma {:induction false} CreatedClassesHaveNoMembers(t: Table, refs: seq<RefClass>, tag: string, appendNone: bool)
    requires forall i, j :: 0 <= i < j < |refs| ==> refs[i].name != refs[j].name
    ensures var r := AugmentAll(t, refs, tag, appendNone);
      forall k :: k in r && k !in t ==> r[k].fields == map[] && r[k].methods == map[]
    decreases |refs|
  {
    if refs != [] {
      var n := |refs| - 1;
      var p := refs[..n];
      CreatedClassesHaveNoMembers(t, p, tag, appendNone);
      AugmentTouchesOnlyNamed(t, p, tag, appendNone, refs[n].name);
    }
  }

  // ---------------------------------------------------------------------
  // What augmentation adds
  // ---------------------------------------------------------------------

  /** One reference class adds members only to its own class, and only the
      signatures it lists. */
  lemma AugmentClassAddsOnlyListed(t: Table, rc: RefClass, tag: string, appendNone: bool, k: string, kind: Kind, s: Sig)
    ensures var r := AugmentClass(t, rc, tag, appendNone);
      k in r && s in r[k].Members(kind) && !(k in t && s in t[k].Members(kind)) ==>
        k == rc.name && s in rc.Sigs(kind)
  {
    if rc.name in t && k == rc.name {
      var c1 := FillMembers(t[k], Field, rc.fields, tag);
      FillMissingSpec(t[k].fields, rc.fields, tag);
      FillMissingSpec(c1.methods, rc.methods, tag);
    }
  }

  /** Every member that augmentation adds to class `k` is a signature listed
      by a reference class named `k`. */
  lemma {:induction false} AugmentAddsOnlyListed(t: Table, refs: seq<RefClass>, tag: string, appendNone: bool, k: string, kind: Kind, s: Sig)
    ensures var r := AugmentAll(t, refs, tag, appendNone);
      k in r && s in r[k].Members(kind) && !(k in t && s in t[k].Members(kind)) ==>
        exists i :: 0 <= i < |refs| && refs[i].name == k && s in refs[i].Sigs(kind)
    decreases |refs|
  {
    if refs != [] {
      var n := |refs| - 1;
      var p := refs[..n];
      var mid := AugmentAll(t, p, tag, appendNone);
      AugmentAddsOnlyListed(t, p, tag, appendNone, k, kind, s);
      AugmentClassAddsOnlyListed(mid, refs[n], tag, appendNone, k, kind, s);
      if k in mid && s in mid[k].Members(kind) && !(k in t && s in t[k].Members(kind)) {
        var i :| 0 <= i < |p| && p[i].name == k && s in p[i].Sigs(kind);
        assert refs[i] == p[i];
      }
    }
  }

  // ---------------------------------------------------------------------
  // Order of the reference classes
  // ---------------------------------------------------------------------

  /** No two reference classes share a name. */
  predicate DistinctNames(refs: seq<RefClass>)
  {
    forall i, j :: 0 <= i < j < |refs| ==> refs[i].name != refs[j].name
  }

  /** Two reference classes with different names can be handled in either order. */
  lemma AugmentClassCommutes(t: Table, a: RefClass, b: RefClass, tag: string, appendNone: bool)
    requires a.name != b.name
    ensures AugmentClass(AugmentClass(t, a, tag, appendNone), b, tag, appendNone)
         == AugmentClass(AugmentClass(t, b, tag, appendNone), a, tag, appendNone)
  {
    AugmentClassFrame(t, a, tag, appendNone, b.name);
    AugmentClassFrame(t, b, tag, appendNone, a.name);
  }

  /** A run extended by one reference class is that class applied to the run. */
  lemma AugmentSnoc(t: Table, refs: seq<RefClass>, rc: RefClass, tag: string, appendNone: bool)
    ensures AugmentAll(t, refs + [rc], tag, appendNone) == AugmentClass(AugmentAll(t, refs, tag, appendNone), rc, tag, appendNone)
  {
    assert (refs + [rc])[..|refs|] == refs;
  }

  /** Swapping two neighbouring reference classes with different names does
      not change the result of the whole run. */
  lemma {:induction false} AugmentSwapAdjacent(t: Table, p: seq<RefClass>, a: RefClass, b: RefClass, q: seq<RefClass>, tag: string, appendNone: bool)
    requires a.name != b.name
    ensures AugmentAll(t, p + [a, b] + q, tag, appendNone) == AugmentAll(t, p + [b, a] + q, tag, appendNone)
    decreases |q|
  {
    if q == [] {
      assert p + [a, b] + q == (p + [a]) + [b] && p + [b, a] + q == (p + [b]) + [a];
      AugmentSnoc(t, p, a, tag, appendNone);
      AugmentSnoc(t, p + [a], b, tag, appendNone);
      AugmentSnoc(t, p, b, tag, appendNone);
      AugmentSnoc(t, p + [b], a, tag, appendNone);
      AugmentClassCommutes(AugmentAll(t, p, tag, appendNone), a, b, tag, appendNone);
    } else {
      var n := |q| - 1;
      AugmentSwapAdjacent(t, p, a, b, q[..n], tag, appendNone);
      assert p + [a, b] + q == (p + [a, b] + q[..n]) + [q[n]];
      assert p + [b, a] + q == (p + [b, a] + q[..n]) + [q[n]];
      AugmentSnoc(t, p + [a, b] + q[..n], q[n], tag, appendNone);
      AugmentSnoc(t, p + [b, a] + q[..n], q[n], tag, appendNone);
    }
  }

  /** The shape of a run after its entries `j` and `j + 1` are swapped. */
  lemma SwapShape(refs: seq<RefClass>, j: int)
    requires 0 <= j < |refs| - 1
    ensures var swapped := refs[..j] + [refs[j + 1], refs[j]] + refs[j + 2..];
      && refs == refs[..j] + [refs[j], refs[j + 1]] + refs[j + 2..]
      && |swapped| == |refs| && swapped[j + 1] == refs[j]
      && (forall k :: j + 1 < k < |refs| ==> swapped[k] == refs[k])
      && swapped[..j + 1] + swapped[j + 2..] == refs[..j] + refs[j + 1..]
  {
    var swapped := refs[..j] + [refs[j + 1], refs[j]] + refs[j + 2..];
    assert swapped[..j + 1] == refs[..j] + [refs[j + 1]];
    assert swapped[j + 2..] == refs[j + 2..];
    assert refs[j + 1..] == [refs[j + 1]] + refs[j + 2..];
  }

  /** A reference class whose name no later one carries can be moved to the end. */
  lemma {:induction false} AugmentMoveToEnd(t: Table, refs: seq<RefClass>, j: int, tag: string, appendNone: bool)
    requires 0 <= j < |refs|
    requires forall k :: j < k < |refs| ==> refs[k].name != refs[j].name
    ensures AugmentAll(t, refs, tag, appendNone)
         == AugmentAll(t, refs[..j] + refs[j + 1..] + [refs[j]], tag, appendNone)
    decreases |refs| - j
  {
    if j == |refs| - 1 {
      assert refs[..j] + refs[j + 1..] + [refs[j]] == refs;
    } else {
      var swapped := refs[..j] + [refs[j + 1], refs[j]] + refs[j + 2..];
      SwapShape(refs, j);
      AugmentSwapAdjacent(t, refs[..j], refs[j], refs[j + 1], refs[j + 2..], tag, appendNone);
      AugmentMoveToEnd(t, swapped, j + 1, tag, appendNone);
    }
  }

  lemma DistinctNamesRemove(refs: seq<RefClass>, j: int)
    requires DistinctNames(refs) && 0 <= j < |refs|
    ensures DistinctNames(refs[..j] + refs[j + 1..])
  {
    var rest := refs[..j] + refs[j + 1..];
    forall i, k | 0 <= i < k < |rest| ensures rest[i].name != rest[k].name {
      var i', k' := if i < j then i else i + 1, if k < j then k else k + 1;
      assert rest[i] == refs[i'] && rest[k] == refs[k'];
    }
  }

  /** Taking the last entry of `refs2` out of `refs` leaves two runs that are
      again permutations of each other. */
  lemma RemoveShape(refs: seq<RefClass>, refs2: seq<RefClass>, j: int)
    requires multiset(refs) == multiset(refs2) && refs2 != []
    requires 0 <= j < |refs| && refs[j] == refs2[|refs2| - 1]
    ensures multiset(refs[..j] + refs[j + 1..]) == multiset(refs2[..|refs2| - 1])
  {
    var n := |refs2| - 1;
    var rest := refs[..j] + refs[j + 1..];
    assert refs == refs[..j] + [refs[j]] + refs[j + 1..];
    assert multiset(refs) == multiset(refs[..j]) + multiset{refs[j]} + multiset(refs[j + 1..]);
    assert multiset(rest) == multiset(refs[..j]) + multiset(refs[j + 1..]);
    assert refs2 == refs2[..n] + [refs2[n]];
    assert multiset(refs2) == multiset(refs2[..n]) + multiset{refs2[n]};
    assert multiset(rest) == multiset(refs) - multiset{refs[j]};
    assert multiset(refs2[..n]) == multiset(refs2) - multiset{refs2[n]};
  }

  /** With distinct names, the order in which the reference classes are
      enumerated does not matter: any permutation gives the same table. */
  lemma {:induction false} AugmentOrderIndependent(t: Table, refs: seq<RefClass>, refs2: seq<RefClass>, tag: string, appendNone: bool)
    requires DistinctNames(refs) && multiset(refs) == multiset(refs2)
    ensures AugmentAll(t, refs, tag, appendNone) == AugmentAll(t, refs2, tag, appendNone)
    decreases |refs|
  {
    assert |refs| == |multiset(refs)| == |refs2|;
    if refs2 != [] {
      var n := |refs2| - 1;
      var x := refs2[n];
      assert x in multiset(refs2);
      var j :| 0 <= j < |refs| && refs[j] == x;
      var rest := refs[..j] + refs[j + 1..];
      AugmentMoveToEnd(t, refs, j, tag, appendNone);
      RemoveShape(refs, refs2, j);
      DistinctNamesRemove(refs, j);
      AugmentOrderIndependent(t, rest, refs2[..n], tag, appendNone);
      AugmentSnoc(t, rest, x, tag, appendNone);
    }
  }

  /** Without distinct names the order matters: two class files of the same
      name, the first creating the class and the second filling it, give
      different tables in the two orders. */
  lemma SameNameOrderMatters()
    ensures var a1, a2 := RefClass("a", [Sig("x", "I")], []), RefClass("a", [Sig("y", "I")], []);
      var r12 := AugmentAll(map[], [a1, a2], "tag", false);
      var r21 := AugmentAll(map[], [a2, a1], "tag", false);
      && "a" in r12 && "a" in r21
      && r12["a"].fields == map[Sig("y", "I") := Placeholder("tag", "y")]
      && r21["a"].fields == map[Sig("x", "I") := Placeholder("tag", "x")]
  {
    var a1, a2 := RefClass("a", [Sig("x", "I")], []), RefClass("a", [Sig("y", "I")], []);
    var created := map["a" := ClassMapping(Some(SyntheticClassName("tag", "a", false)), map[], map[])];
    assert [a1, a2][..1] == [a1] && [a1][..0] == [];
    assert [a2, a1][..1] == [a2] && [a2][..0] == [];
    assert AugmentAll(map[], [a1], "tag", false) == created;
    assert AugmentAll(map[], [a2], "tag", false) == created;
    assert [Sig("x", "I")][..0] == [] && [Sig("y", "I")][..0] == [];
    assert FillMissing(map[], [Sig("y", "I")], "tag") == map[Sig("y", "I") := Placeholder("tag", "y")];
    assert FillMissing(map[], [Sig("x", "I")], "tag") == map[Sig("x", "I") := Placeholder("tag", "x")];
    assert AugmentAll(map[], [a1, a2], "tag", false) == AugmentClass(created, a2, "tag", false);
    assert AugmentAll(map[], [a2, a1], "tag", false) == AugmentClass(created, a1, "tag", false);
  }

  // ---------------------------------------------------------------------
  // The augmentation loop of `main`
  // ---------------------------------------------------------------------

  /** The loop over the reference JAR's classes: `gameName` is the sanitised
      tag. The mapping set ends as `AugmentAll` of what it was. */
  method Augment(mappings: MappingSet, refs: seq<RefClass>, gameName: string, appendNone: bool)
    modifies mappings
    ensures mappings.classes == AugmentAll(old(mappings.classes), refs, gameName, appendNone)
  {
    ghost var t0 := mappings.classes;
    var i := 0;
    while i < |refs|
      invariant 0 <= i <= |refs|
      invariant mappings.classes == AugmentAll(t0, refs[..i], gameName, appendNone)
    {
      assert refs[..i + 1][..i] == refs[..i];
      AugmentOne(mappings, refs[i], gameName, appendNone);
      i := i + 1;
    }
    assert refs[..|refs|] == refs;
  }

  /** The body of that loop for one class node. */
  method AugmentOne(mappings: MappingSet, node: RefClass, gameName: string, appendNone: bool)
    modifies mappings
    ensures mappings.classes == AugmentClass(old(mappings.classes), node, gameName, appendNone)
  {
    var opt := mappings.GetClassMapping(node.name);
    if opt.Some? {
      FillClass(mappings, node.name, Field, node.fields, gameName);
      FillClass(mappings, node.name, Method, node.methods, gameName);
    } else if '/' !in node.name || (appendNone && StartsWith(node.name, "none")) {
      mappings.SetClassName(node.name, SyntheticClassName(gameName, node.name, appendNone));
    }
  }

  /** One of the two member loops for a mapped class. */
  method FillClass(mappings: MappingSet, owner: string, kind: Kind, sigs: seq<Sig>, gameName: string)
    requires owner in mappings.classes
    modifies mappings
    ensures mappings.classes == old(mappings.classes)[owner := FillMembers(old(mappings.classes)[owner], kind, sigs, gameName)]
  {
    ghost var t0 := mappings.classes;
    for j := 0 to |sigs|
      invariant mappings.classes == t0[owner := FillMembers(t0[owner], kind, sigs[..j], gameName)]
    {
      var sig := sigs[j];
      assert sigs[..j + 1][..j] == sigs[..j];
      var has := mappings.HasMemberMapping(kind, owner, sig);
      if !has {
        mappings.SetMemberName(kind, owner, sig, Placeholder(gameName, sig.name));
      }
    }
    assert sigs[..|sigs|] == sigs;
  }
}
