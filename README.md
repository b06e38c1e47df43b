# Access-control specificity filter, subentries and the bootstrap object-class registry

A Dafny model of three pieces of a directory server.

- **The most-specific-protected-item filter.** This stage of the access-control decision function (ITU-T X.501, section 18.8) narrows a collection of ACI tuples by how specific their protected items are.
  - Tier 1 keeps the tuples that name an attribute type, all attribute values, a self value or an attribute value.
  - Tier 2 applies only when tier 1 is empty. It keeps the tuples that hold a range of values.
  - Otherwise the input comes back unchanged.
  - A collection of at most one tuple is returned as is.

  The module `MostSpecificProtectedItem` defines the specification functions `AttributeTier`, `ValueRangeTier` and `MostSpecific` on sequences, so order and multiplicity stay visible. The method `Filter` runs the filter's nested loops, and its result is proved equal to `MostSpecific`.
- **The subentry.** A subentry is a mutable record of a subtree specification, a set of administrative roles, a UUID and a CN. It has four role-membership queries. The module `Administrative` models it as a class with frame-restricted setters.
- **The bootstrap object-class registry.** The module `ObjectClassRegistry` models it as a class with three tables:
  - OID → object class;
  - OID → schema name;
  - the OID registry's name → OID map, which `register` extends.

  The object invariant `Valid()` says that the two OID tables have the same key set and that every class is filed under its own OID.

The Java exceptions become `Result`/`Outcome` values (module `Wrappers`). A Java field that is still null becomes `None`.

Two behaviours of the code are worth stating:

- Tier 2 has no `break`, so a tuple is added once per range-of-values item it holds. Filtering a short input, a tier-1 output or a fallback output again always gives the same output (`MostSpecificIdempotent`). A tier-2 output comes back unchanged exactly when every input tuple that holds a range of values holds exactly one (`TierTwoIdempotentIff`). `TierTwoNotIdempotent` exhibits a tier-2 output that grows when it is filtered again.
- Subentry does not reject an empty role set, and the model does not reject one either.

## Model

| member | source | states |
|---|---|---|
| `MostSpecificProtectedItem.Filter` | core/src/main/java/org/apache/ldap/server/authz/support/MostSpecificProtectedItemFilter.java:36-104 | The loops (size short-circuit, tier-1 pass with a per-tuple break, tier-2 pass without one, fallback) return exactly `MostSpecific(tuples)` |
| `MostSpecificProtectedItem.MostSpecific` | core/src/main/java/org/apache/ldap/server/authz/support/MostSpecificProtectedItemFilter.java:38-103 | Every tuple of the result is a tuple of the input; an input of two or more tuples gives a non-empty result |
| `MostSpecificProtectedItem.AttributeTier` | core/src/main/java/org/apache/ldap/server/authz/support/MostSpecificProtectedItemFilter.java:47-74 | Tier 1 is no longer than its input, and holds only input tuples that carry an attribute-type, all-attribute-values, self-value or attribute-value item |
| `MostSpecificProtectedItem.ValueRangeTier` | core/src/main/java/org/apache/ldap/server/authz/support/MostSpecificProtectedItemFilter.java:85-96 | Tier 2 holds only input tuples that carry a range-of-values item |
| `MostSpecificProtectedItem.RangeCountPositive` | core/src/main/java/org/apache/ldap/server/authz/support/MostSpecificProtectedItemFilter.java:88-95 | A tuple's items add it to tier 2 at least once iff one of them is a range of values |
| `MostSpecificProtectedItem.AttributeTierAppend` | core/src/main/java/org/apache/ldap/server/authz/support/MostSpecificProtectedItemFilter.java:47-74 | Tier 1 keeps input order: tier 1 of a concatenation is the concatenation of the tiers |
| `MostSpecificProtectedItem.AttributeTierCount` | core/src/main/java/org/apache/ldap/server/authz/support/MostSpecificProtectedItemFilter.java:50-72 | Because of the break, an attribute-specific tuple occurs in tier 1 exactly as often as in the input, and any other tuple does not occur at all |
| `MostSpecificProtectedItem.AttributeTierEmpty` | core/src/main/java/org/apache/ldap/server/authz/support/MostSpecificProtectedItemFilter.java:47-79 | Tier 1 is empty iff no input tuple carries an attribute-specific item |
| `MostSpecificProtectedItem.AttributeTierOfAttributeSpecific` | core/src/main/java/org/apache/ldap/server/authz/support/MostSpecificProtectedItemFilter.java:47-74 | Tier 1 returns a list of attribute-specific tuples unchanged |
| `MostSpecificProtectedItem.ValueRangeTierAppend` | core/src/main/java/org/apache/ldap/server/authz/support/MostSpecificProtectedItemFilter.java:85-96 | Tier 2 keeps input order: tier 2 of a concatenation is the concatenation of the tiers |
| `MostSpecificProtectedItem.ValueRangeTierCount` | core/src/main/java/org/apache/ldap/server/authz/support/MostSpecificProtectedItemFilter.java:85-96 | With no break, a tuple occurs in tier 2 as often as in the input times the number of its range-of-values items |
| `MostSpecificProtectedItem.RepeatCount` | core/src/main/java/org/apache/ldap/server/authz/support/MostSpecificProtectedItemFilter.java:88-95 | The copies one tuple contributes to tier 2 are copies of that tuple only |
| `MostSpecificProtectedItem.ValueRangeTierEmpty` | core/src/main/java/org/apache/ldap/server/authz/support/MostSpecificProtectedItemFilter.java:85-101 | Tier 2 is empty iff no input tuple carries a range-of-values item |
| `MostSpecificProtectedItem.MostSpecificIsAttributeTier` | core/src/main/java/org/apache/ldap/server/authz/support/MostSpecificProtectedItemFilter.java:76-79 | Two or more tuples, one of them attribute-specific: the result is tier 1 |
| `MostSpecificProtectedItem.MostSpecificIsValueRangeTier` | core/src/main/java/org/apache/ldap/server/authz/support/MostSpecificProtectedItemFilter.java:76-101 | Two or more tuples, none attribute-specific, one with a range of values: the result is tier 2 (computed from an empty accumulator) |
| `MostSpecificProtectedItem.MostSpecificFallback` | core/src/main/java/org/apache/ldap/server/authz/support/MostSpecificProtectedItemFilter.java:98-103 | No tuple attribute-specific or with a range of values: the input comes back unchanged |
| `MostSpecificProtectedItem.MostSpecificIdempotent` | core/src/main/java/org/apache/ldap/server/authz/support/MostSpecificProtectedItemFilter.java:38-79 | Filtering a short input, a tier-1 output or a fallback output again gives the same output |
| `MostSpecificProtectedItem.RangedTupleInValueRangeTier` | core/src/main/java/org/apache/ldap/server/authz/support/MostSpecificProtectedItemFilter.java:85-96 | A tuple holding ranges of values occurs in tier 2, at least once per range it holds |
| `MostSpecificProtectedItem.ValueRangeTierFixed` | core/src/main/java/org/apache/ldap/server/authz/support/MostSpecificProtectedItemFilter.java:85-96 | Tier 2 gives a list back unchanged iff every tuple in it holds exactly one range of values |
| `MostSpecificProtectedItem.ValueRangeTierOfSingleRanges` | core/src/main/java/org/apache/ldap/server/authz/support/MostSpecificProtectedItemFilter.java:85-96 | Tier 2 returns a list of one-range tuples unchanged |
| `MostSpecificProtectedItem.ValueRangeTierRefiltered` | core/src/main/java/org/apache/ldap/server/authz/support/MostSpecificProtectedItemFilter.java:76-101 | A tier-2 output of two or more tuples, filtered again, takes the tier-2 exit again: the result is the tier 2 of that output |
| `MostSpecificProtectedItem.LongValueRangeTierFixed` | core/src/main/java/org/apache/ldap/server/authz/support/MostSpecificProtectedItemFilter.java:85-96 | A tier-2 output of two or more tuples is its own tier 2 iff every ranged input tuple holds one range |
| `MostSpecificProtectedItem.ShortValueRangeTierSingle` | core/src/main/java/org/apache/ldap/server/authz/support/MostSpecificProtectedItemFilter.java:85-96 | A tier-2 output of a single tuple means every ranged input tuple holds exactly one range |
| `MostSpecificProtectedItem.TierTwoIdempotentIff` | core/src/main/java/org/apache/ldap/server/authz/support/MostSpecificProtectedItemFilter.java:76-101 | For two or more tuples that exit through tier 2, filtering the output again gives it back iff every input tuple holding a range of values holds exactly one |
| `MostSpecificProtectedItem.TierTwoNotIdempotent` | core/src/main/java/org/apache/ldap/server/authz/support/MostSpecificProtectedItemFilter.java:85-101 | A tuple with two ranges of values beside an entry-level tuple gives two copies; filtering those gives four |
| `MostSpecificProtectedItem.AttributeTypeBeatsEntry` | core/src/main/java/org/apache/ldap/server/authz/support/MostSpecificProtectedItemFilter.java:47-79 | A granting attribute-type tuple beside a denying entry-level tuple: only the attribute-type tuple survives |
| `Administrative.RolesFromQueries` | core-api/src/main/java/org/apache/directory/server/core/administrative/Subentry.java:93-123 | The role set built from four query answers contains each role iff its answer is true |
| `Administrative.Subentry.constructor` | core-api/src/main/java/org/apache/directory/server/core/administrative/Subentry.java:36-48 | A new subentry has no subtree specification, roles, UUID or CN |
| `Administrative.Subentry.GetSubtreeSpecification` | core-api/src/main/java/org/apache/directory/server/core/administrative/Subentry.java:64-67 | Returns the stored subtree specification, `None` until one is set |
| `Administrative.Subentry.GetAdministrativeRoles` | core-api/src/main/java/org/apache/directory/server/core/administrative/Subentry.java:84-87 | Returns the stored role set, `None` until one is set; a set role set is exactly the one the four role queries answer for |
| `Administrative.Subentry.GetUuid` | core-api/src/main/java/org/apache/directory/server/core/administrative/Subentry.java:129-132 | Returns the stored UUID, `None` until one is set |
| `Administrative.Subentry.GetCn` | core-api/src/main/java/org/apache/directory/server/core/administrative/Subentry.java:147-150 | Returns the stored CN, `None` until one is set |
| `Administrative.Subentry.SetSubtreeSpecification` | core-api/src/main/java/org/apache/directory/server/core/administrative/Subentry.java:55-67 | Only the subtree specification changes, and the getter returns the new one |
| `Administrative.Subentry.SetAdministrativeRoles` | core-api/src/main/java/org/apache/directory/server/core/administrative/Subentry.java:75-123 | Only the role set changes; the getter returns exactly it, and each role query then answers membership in it |
| `Administrative.Subentry.SetUuid` | core-api/src/main/java/org/apache/directory/server/core/administrative/Subentry.java:129-141 | Only the UUID changes, and the getter returns the new one |
| `Administrative.Subentry.SetCn` | core-api/src/main/java/org/apache/directory/server/core/administrative/Subentry.java:147-159 | Only the CN changes, and the getter returns the new one |
| `Administrative.Subentry.IsCollectiveAdminRole` | core-api/src/main/java/org/apache/directory/server/core/administrative/Subentry.java:93-96 | Needs a set role set; true iff it contains CollectiveAttribute; reads and changes nothing else |
| `Administrative.Subentry.IsSchemaAdminRole` | core-api/src/main/java/org/apache/directory/server/core/administrative/Subentry.java:102-105 | Needs a set role set; true iff it contains SubSchema |
| `Administrative.Subentry.IsAccessControlAdminRole` | core-api/src/main/java/org/apache/directory/server/core/administrative/Subentry.java:111-114 | Needs a set role set; true iff it contains AccessControl |
| `Administrative.Subentry.IsTriggersAdminRole` | core-api/src/main/java/org/apache/directory/server/core/administrative/Subentry.java:120-123 | Needs a set role set; true iff it contains TriggerExecution |
| `Administrative.RolesDeterminedByQueries` | core-api/src/main/java/org/apache/directory/server/core/administrative/Subentry.java:93-123 | The four query answers together give back the whole role set |
| `ObjectClassRegistry.BootstrapObjectClassRegistry.constructor` | core/src/main/java/org/apache/ldap/server/schema/bootstrap/BootstrapObjectClassRegistry.java:57-62 | Both OID tables start empty, the OID registry is the one given, and the invariant holds |
| `ObjectClassRegistry.BootstrapObjectClassRegistry.Register` | core/src/main/java/org/apache/ldap/server/schema/bootstrap/BootstrapObjectClassRegistry.java:69-81 | A taken OID fails and changes nothing. Otherwise the OID gets the class and the schema, the name gets the OID, and no other key changes. The invariant is kept, and a lookup by the class's name then finds the class and its schema |
| `ObjectClassRegistry.BootstrapObjectClassRegistry.Lookup` | core/src/main/java/org/apache/ldap/server/schema/bootstrap/BootstrapObjectClassRegistry.java:84-97 | Fails for an unknown name and for an unregistered OID. Otherwise returns the class filed under the resolved OID, and that class carries the OID |
| `ObjectClassRegistry.BootstrapObjectClassRegistry.HasObjectClass` | core/src/main/java/org/apache/ldap/server/schema/bootstrap/BootstrapObjectClassRegistry.java:100-115 | Never fails; true iff `Lookup` succeeds, so false for a name the OID registry does not know |
| `ObjectClassRegistry.BootstrapObjectClassRegistry.GetSchemaName` | core/src/main/java/org/apache/ldap/server/schema/bootstrap/BootstrapObjectClassRegistry.java:118-128 | Fails with `UnknownId` for an unknown name. A resolved OID with a schema gives that schema; one without gives `NoSchemaName` for the OID. Under the invariant it succeeds iff `Lookup` does |
| `ObjectClassRegistry.BootstrapObjectClassRegistry.List` | core/src/main/java/org/apache/ldap/server/schema/bootstrap/BootstrapObjectClassRegistry.java:131-134 | Exactly the classes in the OID table; under the invariant each is the one filed under its own OID |
| `ObjectClassRegistry.ListOnePerOid` | core/src/main/java/org/apache/ldap/server/schema/bootstrap/BootstrapObjectClassRegistry.java:131-134 | Under the invariant the listing has exactly one class per registered OID |
| `ObjectClassRegistry.ValuesCardinality` | core/src/main/java/org/apache/ldap/server/schema/bootstrap/BootstrapObjectClassRegistry.java:79-80 | A table that files each class under its own OID has as many distinct classes as keys |

## Left out

- The filter's other parameters are never read by its code and are dropped: the operation scope, the next interceptor, the user and group names, the user entry, the authentication level, the entry name, the attribute id and value, the entry and the micro-operations.
- A tuple's protected items are a sequence in the order its collection iterates them. Whether that collection admits duplicate items is not modelled; tier 2 counts every item the sequence holds.
- ACI tuple fields other than the grant flag, the precedence and the protected items (user classes, authentication level, micro-operations) are not part of this model. The other filter stages, the collection of candidate tuples from subentries and the grant/deny verdict are not part of this model either.
- The Java filter returns its input collection object itself (aliasing). The model returns an equal sequence.
- The Subentry setters accept only non-null values. A Java caller passing null, which would make the role queries throw, is not modelled.
- `Administrative.Subentry.SetAdministrativeRoles` stores the caller's mutable `Set`, and `getAdministrativeRoles` hands out that same object. A later change made through either reference changes what the four role queries answer. The model stores an immutable set value, so this aliasing is not captured. The promise that the getter returns exactly the stored roles holds only while no caller mutates that set.
- `SubtreeSpecification` is an opaque value. `AdministrativeRoleEnum` is not part of this model; the role datatype holds the four constants the queries use.
- `OidRegistry` internals are not part of this model. It is an abstract name → OID map, so an OID given directly resolves only if it was registered as a name. It is also a field of the registry rather than an object shared with other registries. Any failure of its `register` is not modelled.
- `ObjectClass` is reduced to its OID and its first name.
- `list()` returns an iterator over the table's values. The model returns their set; `ListOnePerOid` shows that no class is lost by that.
- `ObjectClassRegistry.BootstrapObjectClassRegistry.List` does not model that the Java iterator is live. Its `remove()` deletes a class from the OID → class table but leaves the class's OID → schema entry, which breaks the same-key-set invariant `Valid()`. The model assumes no caller removes through the iterator.
- The `toString` methods, logging and exception message texts are left out.
- Concurrent access to the shared registries is left out.
