/** The tiny reader: projects a multi-namespace mapping table onto one
    (from, to) pair of namespaces, writing into a mapping set. Keys are always
    from-namespace names; only class targets are normalised. */
module Projection {
  import opened Names
  import opened MappingTree

  type Namespace = string

  /** One namespace's view of a member: owner class, name, descriptor. */
  datatype EntryTriple = EntryTriple(owner: string, name: string, desc: string)

  /** A class row: the class's name in each namespace the row carries. */
  datatype ClassEntry = ClassEntry(names: map<Namespace, string>)

  /** A field or method row: its triple in each namespace the row carries. */
  datatype MemberEntry = MemberEntry(triples: map<Namespace, EntryTriple>)

  /** The parsed multi-namespace table. */
  datatype Mappings = Mappings(
    classEntries: seq<ClassEntry>,
    fieldEntries: seq<MemberEntry>,
    methodEntries: seq<MemberEntry>)
  {
    function Entries(kind: Kind): seq<MemberEntry>
    {
      if kind == Field then fieldEntries else methodEntries
    }
  }

  datatype ReadError = MissingNamespace(namespace: Namespace)

  datatype Result<+T> = Ok(value: T) | Err(error: ReadError)

  /** Runs the next member loop on a successful table; an error passes through. */
  function Then(r: Result<Table>, kind: Kind, es: seq<MemberEntry>, from: Namespace, to: Namespace): Result<Table>
  {
    match r
    case Err(e) => Err(e)
    case Ok(t) => ProjectMembers(t, kind, es, from, to)
  }

  predicate ClassHas(e: ClassEntry, from: Namespace, to: Namespace)
  {
    from in e.names && to in e.names
  }

  predicate MemberHas(e: MemberEntry, from: Namespace, to: Namespace)
  {
    from in e.triples && to in e.triples
  }

  /** The owner and signature a member row is keyed by: both from the
      from-namespace triple. */
  function Owner(e: MemberEntry, from: Namespace): string
    requires from in e.triples
  {
    e.triples[from].owner
  }

  function FromSig(e: MemberEntry, from: Namespace): Sig
    requires from in e.triples
  {
    Sig(e.triples[from].name, e.triples[from].desc)
  }

  /** One iteration of the class loop. */
  function ClassStep(t: Table, e: ClassEntry, from: Namespace, to: Namespace, appendNone: bool): Result<Table>
  {
    if from !in e.names then Err(MissingNamespace(from))
    else if to !in e.names then Err(MissingNamespace(to))
    else Ok(WithClassName(t, e.names[from], ProcClassName(e.names[to], appendNone)))
  }

  /** One iteration of the field loop (kind Field) or method loop (kind Method):
      the target name is the to-namespace member name, not normalised. */
  function MemberStep(t: Table, kind: Kind, e: MemberEntry, from: Namespace, to: Namespace): Result<Table>
  {
    if from !in e.triples then Err(MissingNamespace(from))
    else if to !in e.triples then Err(MissingNamespace(to))
    else Ok(WithMember(t, kind, Owner(e, from), FromSig(e, from), e.triples[to].name))
  }

  /** The class loop over the rows `es`, in order; it stops at the first row
      that lacks one of the two namespaces. */
  function ProjectClasses(t: Table, es: seq<ClassEntry>, from: Namespace, to: Namespace, appendNone: bool): Result<Table>
    decreases |es|
  {
    if es == [] then Ok(t)
    else
      match ProjectClasses(t, es[..|es| - 1], from, to, appendNone)
      case Err(e) => Err(e)
      case Ok(t') => ClassStep(t', es[|es| - 1], from, to, appendNone)
  }

  /** The field loop or the method loop over the rows `es`. */
  function ProjectMembers(t: Table, kind: Kind, es: seq<MemberEntry>, from: Namespace, to: Namespace): Result<Table>
    decreases |es|
  {
    if es == [] then Ok(t)
    else
      match ProjectMembers(t, kind, es[..|es| - 1], from, to)
      case Err(e) => Err(e)
      case Ok(t') => MemberStep(t', kind, es[|es| - 1], from, to)
  }

  /** All rows carry both namespaces. */
  predicate Complete(m: Mappings, from: Namespace, to: Namespace)
  {
    && (forall i :: 0 <= i < |m.classEntries| ==> ClassHas(m.classEntries[i], from, to))
    && (forall i :: 0 <= i < |m.fieldEntries| ==> MemberHas(m.fieldEntries[i], from, to))
    && (forall i :: 0 <= i < |m.methodEntries| ==> MemberHas(m.methodEntries[i], from, to))
  }

  /** `read`: class loop, then field loop, then method loop. */
  function Project(t: Table, m: Mappings, from: Namespace, to: Namespace, appendNone: bool): Result<Table>
  {
    var classes := ProjectClasses(t, m.classEntries, from, to, appendNone);
    Then(Then(classes, Field, m.fieldEntries, from, to), Method, m.methodEntries, from, to)
  }

  /** The class loop succeeds exactly when every class row carries both
      namespaces; a failure names one of the two and a row that lacks it. */
  lemma {:induction false} ProjectClassesOk(t: Table, es: seq<ClassEntry>, from: Namespace, to: Namespace, appendNone: bool)
    ensures var r := ProjectClasses(t, es, from, to, appendNone);
      && (r.Ok? <==> forall i :: 0 <= i < |es| ==> ClassHas(es[i], from, to))
      && (r.Err? ==> (r.error.namespace == from || r.error.namespace == to) &&
                     exists i :: 0 <= i < |es| && r.error.namespace !in es[i].names)
    decreases |es|
  {
    if es != [] {
      var n := |es| - 1;
      ProjectClassesOk(t, es[..n], from, to, appendNone);
    }
  }

  /** The same for a field or method loop. */
  lemma {:induction false} ProjectMembersOk(t: Table, kind: Kind, es: seq<MemberEntry>, from: Namespace, to: Namespace)
    ensures var r := ProjectMembers(t, kind, es, from, to);
      && (r.Ok? <==> forall i :: 0 <= i < |es| ==> MemberHas(es[i], from, to))
      && (r.Err? ==> (r.error.namespace == from || r.error.namespace == to) &&
                     exists i :: 0 <= i < |es| && r.error.namespace !in es[i].triples)
    decreases |es|
  {
    if es != [] {
      var n := |es| - 1;
      ProjectMembersOk(t, kind, es[..n], from, to);
    }
  }

  /** `read` succeeds exactly when every row carries both namespaces, and a
      failure names the from- or the to-namespace. */
  lemma ProjectOk(t: Table, m: Mappings, from: Namespace, to: Namespace, appendNone: bool)
    ensures var r := Project(t, m, from, to, appendNone);
      && (r.Ok? <==> Complete(m, from, to))
      && (r.Err? ==> r.error.namespace == from || r.error.namespace == to)
  {
    ProjectClassesOk(t, m.classEntries, from, to, appendNone);
    var r1 := ProjectClasses(t, m.classEntries, from, to, appendNone);
    if r1.Ok? {
      ProjectMembersOk(r1.value, Field, m.fieldEntries, from, to);
      var r2 := ProjectMembers(r1.value, Field, m.fieldEntries, from, to);
      if r2.Ok? {
        ProjectMembersOk(r2.value, Method, m.methodEntries, from, to);
      }
    }
  }

  /** Once a prefix of the class rows has failed, the whole loop fails the same way. */
  lemma {:induction false} ProjectClassesStopsAtError(t: Table, es: seq<ClassEntry>, n: nat, from: Namespace, to: Namespace, appendNone: bool)
    requires n <= |es|
    requires ProjectClasses(t, es[..n], from, to, appendNone).Err?
    ensures ProjectClasses(t, es, from, to, appendNone) == ProjectClasses(t, es[..n], from, to, appendNone)
    decreases |es| - n
  {
    if n == |es| {
      assert es[..n] == es;
    } else {
      var p := es[..|es| - 1];
      assert p[..n] == es[..n];
      ProjectClassesStopsAtError(t, p, n, from, to, appendNone);
    }
  }

  lemma {:induction false} ProjectMembersStopsAtError(t: Table, kind: Kind, es: seq<MemberEntry>, n: nat, from: Namespace, to: Namespace)
    requires n <= |es|
    requires ProjectMembers(t, kind, es[..n], from, to).Err?
    ensures ProjectMembers(t, kind, es, from, to) == ProjectMembers(t, kind, es[..n], from, to)
    decreases |es| - n
  {
    if n == |es| {
      assert es[..n] == es;
    } else {
      var p := es[..|es| - 1];
      assert p[..n] == es[..n];
      ProjectMembersStopsAtError(t, kind, p, n, from, to);
    }
  }

  /** A successful class loop is a successful loop over all rows but the
      last, followed by the last row's write. */
  lemma ProjectClassesLast(t: Table, es: seq<ClassEntry>, from: Namespace, to: Namespace, appendNone: bool)
    requires es != [] && ProjectClasses(t, es, from, to, appendNone).Ok?
    ensures var n := |es| - 1;
      && ProjectClasses(t, es[..n], from, to, appendNone).Ok?
      && ClassHas(es[n], from, to)
      && ProjectClasses(t, es, from, to, appendNone).value ==
           WithClassName(ProjectClasses(t, es[..n], from, to, appendNone).value,
                         es[n].names[from], ProcClassName(es[n].names[to], appendNone))
  {
  }

  lemma ProjectMembersLast(t: Table, kind: Kind, es: seq<MemberEntry>, from: Namespace, to: Namespace)
    requires es != [] && ProjectMembers(t, kind, es, from, to).Ok?
    ensures var n := |es| - 1;
      && ProjectMembers(t, kind, es[..n], from, to).Ok?
      && MemberHas(es[n], from, to)
      && ProjectMembers(t, kind, es, from, to).value ==
           WithMember(ProjectMembers(t, kind, es[..n], from, to).value,
                      kind, Owner(es[n], from), FromSig(es[n], from), es[n].triples[to].name)
  {
  }

  // ---------------------------------------------------------------------
  // What the class loop writes
  // ---------------------------------------------------------------------

  /** Some class row has from-name `k`. */
  predicate ClassNamed(es: seq<ClassEntry>, from: Namespace, k: string)
  {
    exists i :: 0 <= i < |es| && from in es[i].names && es[i].names[from] == k
  }

  /** Row `i` carries both namespaces and no later row has its from-name. */
  predicate LastClassRow(es: seq<ClassEntry>, from: Namespace, to: Namespace, i: int)
  {
    && 0 <= i < |es| && ClassHas(es[i], from, to)
    && forall j :: i < j < |es| && from in es[j].names ==> es[j].names[from] != es[i].names[from]
  }

  lemma ClassNamedSnoc(es: seq<ClassEntry>, from: Namespace)
    requires es != [] && from in es[|es| - 1].names
    ensures forall k :: ClassNamed(es, from, k) <==>
      ClassNamed(es[..|es| - 1], from, k) || es[|es| - 1].names[from] == k
  {
    var n := |es| - 1;
    var p := es[..n];
    forall k | ClassNamed(es, from, k)
      ensures ClassNamed(p, from, k) || es[n].names[from] == k
    {
      var i :| 0 <= i < |es| && from in es[i].names && es[i].names[from] == k;
      if i < n { assert p[i] == es[i]; }
    }
    forall k | ClassNamed(p, from, k)
      ensures ClassNamed(es, from, k)
    {
      var i :| 0 <= i < |p| && from in p[i].names && p[i].names[from] == k;
      assert es[i] == p[i];
    }
  }

  lemma LastClassRowPrefix(es: seq<ClassEntry>, from: Namespace, to: Namespace, i: int)
    requires LastClassRow(es, from, to, i) && i < |es| - 1 && from in es[|es| - 1].names
    ensures LastClassRow(es[..|es| - 1], from, to, i)
    ensures es[|es| - 1].names[from] != es[i].names[from]
  {
  }

  /** Last write wins: the class keyed by a row's from-name carries the
      normalised to-name of the last row with that from-name. */
  lemma {:induction false} ClassLastWriteWins(t: Table, es: seq<ClassEntry>, from: Namespace, to: Namespace, appendNone: bool, i: int)
    requires ProjectClasses(t, es, from, to, appendNone).Ok?
    requires LastClassRow(es, from, to, i)
    ensures var r := ProjectClasses(t, es, from, to, appendNone).value;
      es[i].names[from] in r && r[es[i].names[from]].deobfName == Some(ProcClassName(es[i].names[to], appendNone))
  {
    var n := |es| - 1;
    ProjectClassesLast(t, es, from, to, appendNone);
    if i < n {
      LastClassRowPrefix(es, from, to, i);
      ClassLastWriteWins(t, es[..n], from, to, appendNone, i);
    }
  }

  /** The class loop adds exactly the rows' from-names as keys, leaves
      classes no row names untouched, and never touches member maps. */
  lemma {:induction false} ClassPassFrame(t: Table, es: seq<ClassEntry>, from: Namespace, to: Namespace, appendNone: bool)
    requires ProjectClasses(t, es, from, to, appendNone).Ok?
    ensures var r := ProjectClasses(t, es, from, to, appendNone).value;
      && (forall k :: k in r <==> k in t || ClassNamed(es, from, k))
      && (forall k :: k in r ==> r[k].fields == ClassOf(t, k).fields && r[k].methods == ClassOf(t, k).methods)
      && (forall k :: k in t && !ClassNamed(es, from, k) ==> r[k] == t[k])
  {
    if es != [] {
      var n := |es| - 1;
      ProjectClassesLast(t, es, from, to, appendNone);
      ClassPassFrame(t, es[..n], from, to, appendNone);
      ClassNamedSnoc(es, from);
    }
  }

  // ---------------------------------------------------------------------
  // What the field and method loops write
  // ---------------------------------------------------------------------

  /** Some member row of these has from-owner `k`. */
  predicate Owned(es: seq<MemberEntry>, from: Namespace, k: string)
  {
    exists i :: 0 <= i < |es| && from in es[i].triples && Owner(es[i], from) == k
  }

  /** Some member row of these is keyed by (`k`, `s`). */
  predicate Written(es: seq<MemberEntry>, from: Namespace, k: string, s: Sig)
  {
    exists i :: 0 <= i < |es| && from in es[i].triples && Owner(es[i], from) == k && FromSig(es[i], from) == s
  }

  /** Row `i` carries both namespaces and no later row has its owner and signature. */
  predicate LastMemberRow(es: seq<MemberEntry>, from: Namespace, to: Namespace, i: int)
  {
    && 0 <= i < |es| && MemberHas(es[i], from, to)
    && forall j :: i < j < |es| && from in es[j].triples ==>
         Owner(es[j], from) != Owner(es[i], from) || FromSig(es[j], from) != FromSig(es[i], from)
  }

  lemma OwnedSnoc(es: seq<MemberEntry>, from: Namespace)
    requires es != [] && from in es[|es| - 1].triples
    ensures forall k :: Owned(es, from, k) <==>
      Owned(es[..|es| - 1], from, k) || Owner(es[|es| - 1], from) == k
  {
    var n := |es| - 1;
    var p := es[..n];
    forall k | Owned(es, from, k)
      ensures Owned(p, from, k) || Owner(es[n], from) == k
    {
      var i :| 0 <= i < |es| && from in es[i].triples && Owner(es[i], from) == k;
      if i < n { assert p[i] == es[i]; }
    }
    forall k | Owned(p, from, k)
      ensures Owned(es, from, k)
    {
      var i :| 0 <= i < |p| && from in p[i].triples && Owner(p[i], from) == k;
      assert es[i] == p[i];
    }
  }

  lemma WrittenSnoc(es: seq<MemberEntry>, from: Namespace)
    requires es != [] && from in es[|es| - 1].triples
    ensures forall k, s :: Written(es, from, k, s) <==>
      Written(es[..|es| - 1], from, k, s) || (Owner(es[|es| - 1], from) == k && FromSig(es[|es| - 1], from) == s)
  {
    var n := |es| - 1;
    var p := es[..n];
    forall k, s | Written(es, from, k, s)
      ensures Written(p, from, k, s) || (Owner(es[n], from) == k && FromSig(es[n], from) == s)
    {
      var i :| 0 <= i < |es| && from in es[i].triples && Owner(es[i], from) == k && FromSig(es[i], from) == s;
      if i < n { assert p[i] == es[i]; }
    }
    forall k, s | Written(p, from, k, s)
      ensures Written(es, from, k, s)
    {
      var i :| 0 <= i < |p| && from in p[i].triples && Owner(p[i], from) == k && FromSig(p[i], from) == s;
      assert es[i] == p[i];
    }
  }

  /** A last row stays last in the prefix that ends before the final row,
      and the final row is keyed differently. */
  lemma LastMemberRowPrefix(es: seq<MemberEntry>, from: Namespace, to: Namespace, i: int)
    requires LastMemberRow(es, from, to, i) && i < |es| - 1 && from in es[|es| - 1].triples
    ensures LastMemberRow(es[..|es| - 1], from, to, i)
    ensures Owner(es[|es| - 1], from) != Owner(es[i], from) || FromSig(es[|es| - 1], from) != FromSig(es[i], from)
  {
  }

  /** Last write wins: the owner exists and its member map at the row's
      from-signature holds the to-namespace member name, unchanged. */
  lemma {:induction false} MemberLastWriteWins(t: Table, kind: Kind, es: seq<MemberEntry>, from: Namespace, to: Namespace, i: int)
    requires ProjectMembers(t, kind, es, from, to).Ok?
    requires LastMemberRow(es, from, to, i)
    ensures var r := ProjectMembers(t, kind, es, from, to).value;
      var o, s := Owner(es[i], from), FromSig(es[i], from);
      o in r && s in r[o].Members(kind) && r[o].Members(kind)[s] == es[i].triples[to].name
  {
    var n := |es| - 1;
    var p := es[..n];
    ProjectMembersLast(t, kind, es, from, to);
    if i < n {
      LastMemberRowPrefix(es, from, to, i);
      MemberLastWriteWins(t, kind, p, from, to, i);
    }
  }

  /** A member loop adds exactly its rows' owners as keys, never sets or
      changes a deobfuscated class name and leaves the other member map alone. */
  lemma {:induction false} MemberPassFrame(t: Table, kind: Kind, es: seq<MemberEntry>, from: Namespace, to: Namespace)
    requires ProjectMembers(t, kind, es, from, to).Ok?
    ensures var r := ProjectMembers(t, kind, es, from, to).value;
      && (forall k :: k in r <==> k in t || Owned(es, from, k))
      && (forall k :: k in r ==> r[k].deobfName == ClassOf(t, k).deobfName)
      && (forall k :: k in r ==> r[k].Members(Other(kind)) == ClassOf(t, k).Members(Other(kind)))
  {
    if es != [] {
      var n := |es| - 1;
      ProjectMembersLast(t, kind, es, from, to);
      MemberPassFrame(t, kind, es[..n], from, to);
      OwnedSnoc(es, from);
    }
  }

  /** A member loop only adds the member entries its rows are keyed by, and
      leaves the value of every entry no row is keyed by unchanged. */
  lemma {:induction false} MemberPassEntries(t: Table, kind: Kind, es: seq<MemberEntry>, from: Namespace, to: Namespace, k: string, s: Sig)
    requires ProjectMembers(t, kind, es, from, to).Ok?
    ensures var r := ProjectMembers(t, kind, es, from, to).value;
      && (k in r && s in r[k].Members(kind) <==> (k in t && s in t[k].Members(kind)) || Written(es, from, k, s))
      && (k in t && s in t[k].Members(kind) && !Written(es, from, k, s) ==>
            r[k].Members(kind)[s] == t[k].Members(kind)[s])
  {
    if es != [] {
      var n := |es| - 1;
      ProjectMembersLast(t, kind, es, from, to);
      MemberPassEntries(t, kind, es[..n], from, to, k, s);
      WrittenSnoc(es, from);
    }
  }

  // ---------------------------------------------------------------------
  // The whole of `read`
  // ---------------------------------------------------------------------

  /** What `read` leaves in the table: keys are the from-names of class rows
      and the from-owners of member rows (plus what was there); each class
      row's last occurrence sets the normalised name; each member row's last
      occurrence sets the raw to-name; a class named by no class row keeps
      the name it had, which for a class first created by a member row is
      none. */
  lemma ReadProjects(t: Table, m: Mappings, from: Namespace, to: Namespace, appendNone: bool)
    requires Project(t, m, from, to, appendNone).Ok?
    ensures var r := Project(t, m, from, to, appendNone).value;
      && (forall k :: k in r <==>
            k in t || ClassNamed(m.classEntries, from, k) || Owned(m.fieldEntries, from, k) || Owned(m.methodEntries, from, k))
      && (forall i :: LastClassRow(m.classEntries, from, to, i) ==>
            var k := m.classEntries[i].names[from];
            k in r && r[k].deobfName == Some(ProcClassName(m.classEntries[i].names[to], appendNone)))
      && (forall k :: k in r && !ClassNamed(m.classEntries, from, k) ==> r[k].deobfName == ClassOf(t, k).deobfName)
      && (forall kind, i :: LastMemberRow(m.Entries(kind), from, to, i) ==>
            var o, s := Owner(m.Entries(kind)[i], from), FromSig(m.Entries(kind)[i], from);
            o in r && s in r[o].Members(kind) && r[o].Members(kind)[s] == m.Entries(kind)[i].triples[to].name)
  {
    var cs, fs, ms := m.classEntries, m.fieldEntries, m.methodEntries;
    var t1 := ProjectClasses(t, cs, from, to, appendNone).value;
    var t2 := ProjectMembers(t1, Field, fs, from, to).value;
    var r := ProjectMembers(t2, Method, ms, from, to).value;
    ClassPassFrame(t, cs, from, to, appendNone);
    MemberPassFrame(t1, Field, fs, from, to);
    MemberPassFrame(t2, Method, ms, from, to);
    forall i | LastClassRow(cs, from, to, i)
      ensures cs[i].names[from] in r && r[cs[i].names[from]].deobfName == Some(ProcClassName(cs[i].names[to], appendNone))
    {
      ClassLastWriteWins(t, cs, from, to, appendNone, i);
    }
    forall k | k in r && !ClassNamed(cs, from, k)
      ensures r[k].deobfName == ClassOf(t, k).deobfName
    {
      assert ClassOf(t1, k).deobfName == ClassOf(t, k).deobfName;
    }
    forall kind, i | LastMemberRow(m.Entries(kind), from, to, i)
      ensures var o, s := Owner(m.Entries(kind)[i], from), FromSig(m.Entries(kind)[i], from);
        o in r && s in r[o].Members(kind) && r[o].Members(kind)[s] == m.Entries(kind)[i].triples[to].name
    {
      var o, s := Owner(m.Entries(kind)[i], from), FromSig(m.Entries(kind)[i], from);
      if kind == Field {
        MemberLastWriteWins(t1, Field, fs, from, to, i);
        assert o in t2 && r[o].Members(Field) == t2[o].Members(Field);
      } else {
        MemberLastWriteWins(t2, Method, ms, from, to, i);
      }
    }
  }

  /** From a fresh mapping set (as `main` uses it), a class mentioned only by
      member rows exists but has no deobfuscated name. */
  lemma MemberOnlyClassesUnnamed(m: Mappings, from: Namespace, to: Namespace, appendNone: bool, k: string)
    requires Project(map[], m, from, to, appendNone).Ok?
    requires !ClassNamed(m.classEntries, from, k)
    requires Owned(m.fieldEntries, from, k) || Owned(m.methodEntries, from, k)
    ensures var r := Project(map[], m, from, to, appendNone).value;
      k in r && r[k].deobfName == None
  {
    ReadProjects(map[], m, from, to, appendNone);
  }

  // ---------------------------------------------------------------------
  // The reader itself
  // ---------------------------------------------------------------------

  class TinyReader {
    const m: Mappings
    const from: Namespace
    const to: Namespace
    const appendNone: bool

    constructor (m: Mappings, from: Namespace, to: Namespace, appendNone: bool)
      ensures this.m == m && this.from == from && this.to == to && this.appendNone == appendNone
    {
      this.m := m;
      this.from := from;
      this.to := to;
      this.appendNone := appendNone;
    }

    /** `read(mappings)`: succeeds exactly when every row carries both
        namespaces, and then leaves `Project` of the old table. On failure
        the partially written table is not specified. */
    method Read(mappings: MappingSet) returns (error: Option<ReadError>)
      modifies mappings
      ensures var p := Project(old(mappings.classes), m, from, to, appendNone);
        && (error.None? <==> p.Ok?)
        && (p.Ok? ==> mappings.classes == p.value)
        && (p.Err? ==> error == Some(p.error))
    {
      ghost var t0 := mappings.classes;
      error := ReadClasses(mappings);
      if error.Some? {
        return;
      }
      ghost var t1 := mappings.classes;
      error := ReadMembers(mappings, Field, m.fieldEntries);
      if error.Some? {
        return;
      }
      ghost var t2 := mappings.classes;
      assert Project(t0, m, from, to, appendNone) == ProjectMembers(t2, Method, m.methodEntries, from, to);
      error := ReadMembers(mappings, Method, m.methodEntries);
    }

    /** The class loop of `read`. */
    method ReadClasses(mappings: MappingSet) returns (error: Option<ReadError>)
      modifies mappings
      ensures var p := ProjectClasses(old(mappings.classes), m.classEntries, from, to, appendNone);
        && (error.None? <==> p.Ok?)
        && (p.Ok? ==> mappings.classes == p.value)
        && (p.Err? ==> error == Some(p.error))
    {
      ghost var t0 := mappings.classes;
      var cs := m.classEntries;
      for i := 0 to |cs|
        invariant ProjectClasses(t0, cs[..i], from, to, appendNone) == Ok(mappings.classes)
      {
        var e := cs[i];
        assert cs[..i + 1][..i] == cs[..i];
        assert ProjectClasses(t0, cs[..i + 1], from, to, appendNone) == ClassStep(mappings.classes, e, from, to, appendNone);
        if from !in e.names || to !in e.names {
          ProjectClassesStopsAtError(t0, cs, i + 1, from, to, appendNone);
          error := Some(if from !in e.names then MissingNamespace(from) else MissingNamespace(to));
          return;
        }
        mappings.SetClassName(e.names[from], ProcClassName(e.names[to], appendNone));
      }
      assert cs[..|cs|] == cs;
      error := None;
    }

    /** The field loop (kind Field over the field rows) or the method loop
        (kind Method over the method rows) of `read`. */
    method ReadMembers(mappings: MappingSet, kind: Kind, es: seq<MemberEntry>) returns (error: Option<ReadError>)
      modifies mappings
      ensures var p := ProjectMembers(old(mappings.classes), kind, es, from, to);
        && (error.None? <==> p.Ok?)
        && (p.Ok? ==> mappings.classes == p.value)
        && (p.Err? ==> error == Some(p.error))
    {
      ghost var t0 := mappings.classes;
      for i := 0 to |es|
        invariant ProjectMembers(t0, kind, es[..i], from, to) == Ok(mappings.classes)
      {
        var e := es[i];
        assert es[..i + 1][..i] == es[..i];
        assert ProjectMembers(t0, kind, es[..i + 1], from, to) == MemberStep(mappings.classes, kind, e, from, to);
        if from !in e.triples || to !in e.triples {
          ProjectMembersStopsAtError(t0, kind, es, i + 1, from, to);
          error := Some(if from !in e.triples then MissingNamespace(from) else MissingNamespace(to));
          return;
        }
        var fromEntry, toEntry := e.triples[from], e.triples[to];
        mappings.SetMemberName(kind, fromEntry.owner, Sig(fromEntry.name, fromEntry.desc), toEntry.name);
      }
      assert es[..|es|] == es;
      error := None;
    }
  }
}
