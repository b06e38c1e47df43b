/** The bootstrap object-class registry: a table from OID to object class, a
    table from OID to the name of the schema that defined the class, and the
    OID registry that resolves names to OIDs. */
module ObjectClassRegistry {
  import opened Wrappers

  /** An object class; only its OID and its (first) name are used here. */
  datatype ObjectClass = ObjectClass(oid: string, name: string)

  /** Why a registry call fails (the Java code throws a naming exception). */
  datatype RegistryError =
    | AlreadyRegistered(oid: string)  // register: the OID is taken
    | UnknownId(id: string)           // the OID registry cannot resolve the name
    | NotRegistered(oid: string)      // lookup: no class under the OID
    | NoSchemaName(oid: string)       // getSchemaName: no schema under the OID

  class BootstrapObjectClassRegistry {
    var byOid: map<string, ObjectClass>
    var oidToSchema: map<string, string>
    /** The names the OID registry resolves, and the OIDs they resolve to. */
    var oidRegistry: map<string, string>

    /** Both tables cover the same OIDs, and every class is filed under its
        own OID. */
    ghost predicate Valid()
      reads this
    {
      && byOid.Keys == oidToSchema.Keys
      && forall oid :: oid in byOid ==> byOid[oid].oid == oid
    }

    /** An empty registry over the given OID registry. */
    constructor (oids: map<string, string>)
      ensures Valid()
      ensures byOid == map[] && oidToSchema == map[] && oidRegistry == oids
    {
      byOid := map[];
      oidToSchema := map[];
      oidRegistry := oids;
    }

    /** Registers `objectClass` as defined by `schema`. An OID already in the
        class table is refused and nothing changes; otherwise the class and
        the schema are filed under the OID, the OID registry learns the
        class's name, and the class can be looked up by that name. */
    method Register(schema: string, objectClass: ObjectClass) returns (r: Outcome<RegistryError>)
      requires Valid()
      modifies this
      ensures Valid()
      ensures r == if objectClass.oid in old(byOid) then Fail(AlreadyRegistered(objectClass.oid)) else Pass
      ensures r.Fail? ==>
        byOid == old(byOid) && oidToSchema == old(oidToSchema) && oidRegistry == old(oidRegistry)
      ensures r.Pass? ==>
        && byOid == old(byOid)[objectClass.oid := objectClass]
        && oidToSchema == old(oidToSchema)[objectClass.oid := schema]
        && oidRegistry == old(oidRegistry)[objectClass.name := objectClass.oid]
      ensures r.Pass? ==>
        Lookup(objectClass.name) == Success(objectClass)
        && GetSchemaName(objectClass.name) == Success(schema)
        && HasObjectClass(objectClass.name)
    {
      if objectClass.oid in byOid {
        return Fail(AlreadyRegistered(objectClass.oid));
      }
      oidRegistry := oidRegistry[objectClass.name := objectClass.oid];
      byOid := byOid[objectClass.oid := objectClass];
      oidToSchema := oidToSchema[objectClass.oid := schema];
      r := Pass;
    }

    /** The class registered under the OID `id` resolves to. Fails when the
        OID registry does not know `id` or when no class has that OID. A
        class found this way carries that very OID. */
    function Lookup(id: string): (r: Result<ObjectClass, RegistryError>)
      reads this
      ensures id !in oidRegistry ==> r == Failure(UnknownId(id))
      ensures id in oidRegistry ==>
        (r.Success? <==> oidRegistry[id] in byOid)
        && (r.Success? ==> r.value == byOid[oidRegistry[id]])
        && (r.Failure? ==> r.error == NotRegistered(oidRegistry[id]))
      ensures Valid() && r.Success? ==> r.value.oid == oidRegistry[id]
    {
      if id !in oidRegistry then Failure(UnknownId(id))
      else
        var oid := oidRegistry[id];
        if oid !in byOid then Failure(NotRegistered(oid))
        else Success(byOid[oid])
    }

    /** Is a class registered under the OID `id` resolves to? Never fails:
        it answers exactly when `Lookup` would succeed. */
    function HasObjectClass(id: string): (b: bool)
      reads this
      ensures b <==> Lookup(id).Success?
    {
      if id in oidRegistry then oidRegistry[id] in byOid else false
    }

    /** The schema that defined the class `id` resolves to. Fails when the
        OID registry does not know `id` or when no schema is filed under its
        OID. It succeeds for exactly the ids `Lookup` succeeds for, since both
        tables cover the same OIDs. */
    function GetSchemaName(id: string): (r: Result<string, RegistryError>)
      reads this
      ensures id !in oidRegistry ==> r == Failure(UnknownId(id))
      ensures id in oidRegistry ==>
        r == if oidRegistry[id] in oidToSchema then Success(oidToSchema[oidRegistry[id]])
             else Failure(NoSchemaName(oidRegistry[id]))
      ensures r.Success? ==> id in oidRegistry && oidRegistry[id] in oidToSchema
                             && r.value == oidToSchema[oidRegistry[id]]
      ensures Valid() ==> (r.Success? <==> Lookup(id).Success?)
    {
      if id !in oidRegistry then Failure(UnknownId(id))
      else
        var oid := oidRegistry[id];
        if oid in oidToSchema then Success(oidToSchema[oid])
        else Failure(NoSchemaName(oid))
    }

    /** Every registered class; each is the one filed under its own OID. */
    function List(): (r: set<ObjectClass>)
      reads this
      ensures forall c :: c in r <==> exists oid :: oid in byOid && byOid[oid] == c
      ensures Valid() ==> forall c :: c in r ==> c.oid in byOid && byOid[c.oid] == c
    {
      byOid.Values
    }
  }

  /** The listing holds one class per registered OID. */
  lemma ListOnePerOid(registry: BootstrapObjectClassRegistry)
    requires registry.Valid()
    ensures |registry.List()| == |registry.byOid|
  {
    ValuesCardinality(registry.byOid);
  }

  /** A table that files every class under its own OID has one class per
      key. */
  lemma {:induction false} ValuesCardinality(m: map<string, ObjectClass>)
    requires forall oid :: oid in m ==> m[oid].oid == oid
    ensures |m.Values| == |m.Keys|
  {
    if m != map[] {
      var oid :| oid in m;
      var rest := m - {oid};
      ValuesCardinality(rest);
      assert m.Keys == rest.Keys + {oid};
      assert m[oid] !in rest.Values;
      assert m.Values == rest.Values + {m[oid]};
    }
  }
}
