/** The in-memory mapping tree that both passes share: from-namespace class
    names mapped to a class record with an optional deobfuscated name and two
    independent member maps keyed by exact (name, descriptor) signatures. */
module MappingTree {

  datatype Option<+T> = None | Some(value: T)

  /** A member signature: name and type descriptor, compared exactly. */
  datatype Sig = Sig(name: string, desc: string)

  /** Fields and methods live in separate keyspaces. */
  datatype Kind = Field | Method

  function Other(kind: Kind): Kind
  {
    if kind == Field then Method else Field
  }

  datatype ClassMapping = ClassMapping(
    deobfName: Option<string>,
    fields: map<Sig, string>,
    methods: map<Sig, string>)
  {
    function Members(kind: Kind): map<Sig, string>
    {
      if kind == Field then fields else methods
    }

    function WithMembers(kind: Kind, m: map<Sig, string>): (c: ClassMapping)
      ensures c.Members(kind) == m
      ensures c.Members(Other(kind)) == Members(Other(kind))
      ensures c.deobfName == deobfName
    {
      if kind == Field then this.(fields := m) else this.(methods := m)
    }
  }

  /** The whole tree, keyed by from-namespace class name. */
  type Table = map<string, ClassMapping>

  /** What `getOrCreateClassMapping` creates: no name and no members. */
  const Unnamed := ClassMapping(None, map[], map[])

  /** The class record `getOrCreateClassMapping` hands back. */
  function ClassOf(t: Table, name: string): ClassMapping
  {
    if name in t then t[name] else Unnamed
  }

  /** `getOrCreateClassMapping(name).setDeobfuscatedName(deobf)`. */
  function WithClassName(t: Table, name: string, deobf: string): (r: Table)
    ensures r.Keys == t.Keys + {name}
    ensures r[name].deobfName == Some(deobf)
    ensures r[name].fields == ClassOf(t, name).fields && r[name].methods == ClassOf(t, name).methods
    ensures forall k :: k in t && k != name ==> r[k] == t[k]
  {
    t[name := ClassOf(t, name).(deobfName := Some(deobf))]
  }

  /** `getOrCreateClassMapping(owner).getOrCreate…Mapping(sig).setDeobfuscatedName(to)`. */
  function WithMember(t: Table, kind: Kind, owner: string, sig: Sig, to: string): (r: Table)
    ensures r.Keys == t.Keys + {owner}
    ensures r[owner].deobfName == ClassOf(t, owner).deobfName
    ensures r[owner].Members(kind) == ClassOf(t, owner).Members(kind)[sig := to]
    ensures r[owner].Members(Other(kind)) == ClassOf(t, owner).Members(Other(kind))
    ensures forall k :: k in t && k != owner ==> r[k] == t[k]
  {
    var c := ClassOf(t, owner);
    t[owner := c.WithMembers(kind, c.Members(kind)[sig := to])]
  }

  /** The mutable mapping set both passes write into. */
  class MappingSet {
    var classes: Table

    constructor ()
      ensures classes == map[]
    {
      classes := map[];
    }

    /** `getClassMapping(name)`: the record, if the class is mapped. */
    method GetClassMapping(name: string) returns (c: Option<ClassMapping>)
      ensures c.Some? <==> name in classes
      ensures c.Some? ==> c.value == classes[name]
    {
      c := if name in classes then Some(classes[name]) else None;
    }

    /** `hasFieldMapping(sig)` / `hasMethodMapping(sig)` on a mapped class. */
    method HasMemberMapping(kind: Kind, owner: string, sig: Sig) returns (b: bool)
      requires owner in classes
      ensures b <==> sig in classes[owner].Members(kind)
    {
      b := sig in classes[owner].Members(kind);
    }

    method SetClassName(name: string, deobf: string)
      modifies this
      ensures classes == WithClassName(old(classes), name, deobf)
    {
      classes := WithClassName(classes, name, deobf);
    }

    method SetMemberName(kind: Kind, owner: string, sig: Sig, to: string)
      modifies this
      ensures classes == WithMember(old(classes), kind, owner, sig, to)
    {
      classes := WithMember(classes, kind, owner, sig, to);
    }
  }
}
