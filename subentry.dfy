/** The operational view of a subentry: one subtree specification shared by
    every administrative role the subentry plays, the set of those roles, and
    the subentry's identity (its UUID and its CN). */
module Administrative {
  import opened Wrappers

  /** The administrative roles a subentry's role set is queried for. */
  datatype AdministrativeRole = AccessControl | CollectiveAttribute | SubSchema | TriggerExecution

  /** A subtree specification, kept as an opaque value. */
  datatype SubtreeSpecification = SubtreeSpecification(specification: string)

  /** The role set whose membership answers the four queries `access`,
      `collective`, `schema` and `triggers`. */
  function RolesFromQueries(access: bool, collective: bool, schema: bool, triggers: bool): (roles: set<AdministrativeRole>)
    ensures AccessControl in roles <==> access
    ensures CollectiveAttribute in roles <==> collective
    ensures SubSchema in roles <==> schema
    ensures TriggerExecution in roles <==> triggers
  {
    (if access then {AccessControl} else {})
    + (if collective then {CollectiveAttribute} else {})
    + (if schema then {SubSchema} else {})
    + (if triggers then {TriggerExecution} else {})
  }

  /** A subentry. Every field holds `None` until its setter is called, as a
      freshly built Java object holds null. */
  class Subentry {
    var ss: Option<SubtreeSpecification>
    var administrativeRoles: Option<set<AdministrativeRole>>
    var uuid: Option<string>
    var cn: Option<string>

    /** A subentry with nothing set. */
    constructor ()
      ensures ss == None && administrativeRoles == None && uuid == None && cn == None
    {
      ss := None;
      administrativeRoles := None;
      uuid := None;
      cn := None;
    }

    /** The stored subtree specification, `None` until one is set. */
    function GetSubtreeSpecification(): (r: Option<SubtreeSpecification>)
      reads this
      ensures r == ss
    {
      ss
    }

    /** The stored role set, `None` until one is set. The set it returns is
        the one the four role queries answer for. */
    function GetAdministrativeRoles(): (r: Option<set<AdministrativeRole>>)
      reads this
      ensures r == administrativeRoles
      ensures r.Some? ==> r.value == RolesFromQueries(IsAccessControlAdminRole(), IsCollectiveAdminRole(),
                                                      IsSchemaAdminRole(), IsTriggersAdminRole())
    {
      if administrativeRoles.Some? then RolesDeterminedByQueries(this); administrativeRoles
      else administrativeRoles
    }

    /** The stored UUID, `None` until one is set. */
    function GetUuid(): (r: Option<string>)
      reads this
      ensures r == uuid
    {
      uuid
    }

    /** The stored CN, `None` until one is set. */
    function GetCn(): (r: Option<string>)
      reads this
      ensures r == cn
    {
      cn
    }

    /** Stores the subtree specification; no other field changes. */
    method SetSubtreeSpecification(spec: SubtreeSpecification)
      modifies this`ss
      ensures GetSubtreeSpecification() == Some(spec)
    {
      ss := Some(spec);
    }

    /** Replaces the whole role set; no other field changes, and every role
        query now answers for `roles`. */
    method SetAdministrativeRoles(roles: set<AdministrativeRole>)
      modifies this`administrativeRoles
      ensures GetAdministrativeRoles() == Some(roles)
      ensures IsAccessControlAdminRole() == (AccessControl in roles)
      ensures IsCollectiveAdminRole() == (CollectiveAttribute in roles)
      ensures IsSchemaAdminRole() == (SubSchema in roles)
      ensures IsTriggersAdminRole() == (TriggerExecution in roles)
    {
      administrativeRoles := Some(roles);
    }

    /** Stores the UUID; no other field changes. */
    method SetUuid(id: string)
      modifies this`uuid
      ensures GetUuid() == Some(id)
    {
      uuid := Some(id);
    }

    /** Stores the CN; no other field changes. */
    method SetCn(name: string)
      modifies this`cn
      ensures GetCn() == Some(name)
    {
      cn := Some(name);
    }

    /** Does the subentry play the collective-attribute role? The role set
        must have been set: the query dereferences it. */
    function IsCollectiveAdminRole(): (b: bool)
      reads this
      requires administrativeRoles.Some?
      ensures b <==> CollectiveAttribute in administrativeRoles.value
    {
      CollectiveAttribute in administrativeRoles.value
    }

    /** Does the subentry play the subschema role? */
    function IsSchemaAdminRole(): (b: bool)
      reads this
      requires administrativeRoles.Some?
      ensures b <==> SubSchema in administrativeRoles.value
    {
      SubSchema in administrativeRoles.value
    }

    /** Does the subentry play the access-control role? */
    function IsAccessControlAdminRole(): (b: bool)
      reads this
      requires administrativeRoles.Some?
      ensures b <==> AccessControl in administrativeRoles.value
    {
      AccessControl in administrativeRoles.value
    }

    /** Does the subentry play the trigger-execution role? */
    function IsTriggersAdminRole(): (b: bool)
      reads this
      requires administrativeRoles.Some?
      ensures b <==> TriggerExecution in administrativeRoles.value
    {
      TriggerExecution in administrativeRoles.value
    }
  }

  /** The four role queries lose nothing: together they determine the
      subentry's role set. */
  lemma RolesDeterminedByQueries(s: Subentry)
    requires s.administrativeRoles.Some?
    ensures s.administrativeRoles.value
         == RolesFromQueries(s.IsAccessControlAdminRole(), s.IsCollectiveAdminRole(),
                             s.IsSchemaAdminRole(), s.IsTriggersAdminRole())
  {
    var roles := s.administrativeRoles.value;
    var decoded := RolesFromQueries(s.IsAccessControlAdminRole(), s.IsCollectiveAdminRole(),
                                    s.IsSchemaAdminRole(), s.IsTriggersAdminRole());
    forall role
      ensures role in roles <==> role in decoded
    {
      match role
      case AccessControl =>
      case CollectiveAttribute =>
      case SubSchema =>
      case TriggerExecution =>
    }
  }
}
