/**
 * The Hive half of the Ranger-to-IAM binding mapper: whether a Ranger
 * policy covers a table, and which IAM role a policy item's accesses grant.
 *
 * `ANY_RESOURCE` is inherited from `AbstractRangerPermissionMapper`, which is
 * not part of this model; it is a field of the mapper here.
 */
module RangerHiveMapper {
  import opened Wrappers

  /** A policy resource, by its list of values. */
  datatype PolicyResource = PolicyResource(values: seq<string>)

  datatype Policy = Policy(name: string, resources: map<string, PolicyResource>)

  datatype Table = Table(schemaName: string, name: string)

  datatype PolicyItemAccess = PolicyItemAccess(accessType: string, isAllowed: bool)

  const DatabaseResource := "database"
  const TableResource := "table"
  const Wildcard := "*"

  const WriteAccesses: set<string> :=
    {"update", "create", "drop", "alter", "index", "lock", "all", "write", "refresh"}
  const ReadAccesses: set<string> := {"select", "read"}

  /** `getOrDefault`: the resource under `key`, or the default when the key is absent. */
  function GetOrDefault(resources: map<string, PolicyResource>, key: string, default: PolicyResource): (r: PolicyResource)
    ensures key in resources ==> r == resources[key]
    ensures key !in resources ==> r == default
  {
    if key in resources then resources[key] else default
  }

  /** The negation of the `noneMatch`: some value is `*` or exactly `name`. */
  function AnyMatches(values: seq<string>, name: string): bool
  {
    if |values| == 0 then false
    else values[0] == Wildcard || values[0] == name || AnyMatches(values[1..], name)
  }

  /** `AnyMatches` holds exactly when some value is the wildcard or equals the name. */
  lemma {:induction false} AnyMatchesSpec(values: seq<string>, name: string)
    ensures AnyMatches(values, name) <==> exists i :: 0 <= i < |values| && (values[i] == Wildcard || values[i] == name)
  {
    if |values| > 0 {
      AnyMatchesSpec(values[1..], name);
      if exists i :: 0 <= i < |values[1..]| && (values[1..][i] == Wildcard || values[1..][i] == name) {
        var i :| 0 <= i < |values[1..]| && (values[1..][i] == Wildcard || values[1..][i] == name);
        assert values[i + 1] == values[1..][i];
      }
      if exists i :: 0 <= i < |values| && (values[i] == Wildcard || values[i] == name) {
        var i :| 0 <= i < |values| && (values[i] == Wildcard || values[i] == name);
        if i > 0 {
          assert values[1..][i - 1] == values[i];
        }
      }
    }
  }

  datatype Mapper = Mapper(readIamRole: string, writeIamRole: string, anyResource: PolicyResource)
  {
    /** The values a policy gives for a resource kind, inherited ones when it names none. */
    function ResourceValues(policy: Policy, key: string): (values: seq<string>)
      ensures key in policy.resources ==> values == policy.resources[key].values
      ensures key !in policy.resources ==> values == anyResource.values
    {
      GetOrDefault(policy.resources, key, anyResource).values
    }

    /**
     * `policyMatchesTable`: the database check first, then the table check;
     * each needs some value that is `*` or the exact name.
     */
    function PolicyMatchesTable(policy: Policy, table: Table): (r: bool)
      ensures r <==>
                (exists i :: 0 <= i < |ResourceValues(policy, DatabaseResource)| &&
                   (ResourceValues(policy, DatabaseResource)[i] == Wildcard ||
                    ResourceValues(policy, DatabaseResource)[i] == table.schemaName)) &&
                (exists j :: 0 <= j < |ResourceValues(policy, TableResource)| &&
                   (ResourceValues(policy, TableResource)[j] == Wildcard ||
                    ResourceValues(policy, TableResource)[j] == table.name))
    {
      AnyMatchesSpec(ResourceValues(policy, DatabaseResource), table.schemaName);
      AnyMatchesSpec(ResourceValues(policy, TableResource), table.name);
      if !AnyMatches(ResourceValues(policy, DatabaseResource), table.schemaName) then false
      else if !AnyMatches(ResourceValues(policy, TableResource), table.name) then false
      else true
    }

    /** The allowed access types, as the set the source collects. */
    function AllowedTypes(accesses: seq<PolicyItemAccess>): set<string>
    {
      set i | 0 <= i < |accesses| && accesses[i].isAllowed :: accesses[i].accessType
    }

    /**
     * `getRoleForAccesses`: the write role if any allowed access is of a
     * write kind, else the read role if any allowed access is of a read
     * kind, else none.
     */
    function GetRoleForAccesses(accesses: seq<PolicyItemAccess>): (r: Option<string>)
      ensures (exists i :: 0 <= i < |accesses| && accesses[i].isAllowed && accesses[i].accessType in WriteAccesses)
                ==> r == Some(writeIamRole)
      ensures ((forall i :: 0 <= i < |accesses| && accesses[i].isAllowed ==> accesses[i].accessType !in WriteAccesses) &&
               (exists i :: 0 <= i < |accesses| && accesses[i].isAllowed && accesses[i].accessType in ReadAccesses))
                ==> r == Some(readIamRole)
      ensures r.None? <==>
                (forall i :: 0 <= i < |accesses| && accesses[i].isAllowed ==>
                   accesses[i].accessType !in WriteAccesses && accesses[i].accessType !in ReadAccesses)
    {
      AllowedTypesMeet(this, accesses, WriteAccesses);
      AllowedTypesMeet(this, accesses, ReadAccesses);
      var allowed := AllowedTypes(accesses);
      if allowed * WriteAccesses != {} then Some(writeIamRole)
      else if allowed * ReadAccesses != {} then Some(readIamRole)
      else None
    }
  }

  /** A resource that is present but lists no value matches nothing. */
  lemma EmptyResourceNeverMatches(m: Mapper, policy: Policy, table: Table, key: string)
    requires key == DatabaseResource || key == TableResource
    requires key in policy.resources && policy.resources[key].values == []
    ensures !m.PolicyMatchesTable(policy, table)
  {
  }

  /** Only the whole value `*` is a wildcard: a pattern such as `sales*` matches only itself. */
  lemma NoPartialWildcard(m: Mapper, table: Table, pattern: string)
    requires pattern != Wildcard && pattern != table.schemaName
    ensures !m.PolicyMatchesTable(
              Policy("p", map[DatabaseResource := PolicyResource([pattern]),
                              TableResource := PolicyResource([Wildcard])]), table)
  {
    var policy := Policy("p", map[DatabaseResource := PolicyResource([pattern]),
                                  TableResource := PolicyResource([Wildcard])]);
    assert m.ResourceValues(policy, DatabaseResource) == [pattern];
    assert AnyMatches([pattern][1..], table.schemaName) == false;
  }

  /** A policy without database and table resources is judged by the inherited default alone. */
  lemma MissingResourcesUseDefault(m: Mapper, policy: Policy, table: Table)
    requires DatabaseResource !in policy.resources && TableResource !in policy.resources
    ensures m.PolicyMatchesTable(policy, table) <==>
              AnyMatches(m.anyResource.values, table.schemaName) && AnyMatches(m.anyResource.values, table.name)
  {
  }

  /** `*` for both kinds matches every table. */
  lemma WildcardMatchesAll(m: Mapper, policy: Policy, table: Table)
    requires DatabaseResource in policy.resources && Wildcard in policy.resources[DatabaseResource].values
    requires TableResource in policy.resources && Wildcard in policy.resources[TableResource].values
    ensures m.PolicyMatchesTable(policy, table)
  {
    var dbs := policy.resources[DatabaseResource].values;
    var tbls := policy.resources[TableResource].values;
    var i :| 0 <= i < |dbs| && dbs[i] == Wildcard;
    var j :| 0 <= j < |tbls| && tbls[j] == Wildcard;
    assert m.ResourceValues(policy, DatabaseResource)[i] == Wildcard;
    assert m.ResourceValues(policy, TableResource)[j] == Wildcard;
  }

  /** An access type is collected exactly when some allowed access has it. */
  lemma AllowedTypesMember(m: Mapper, accesses: seq<PolicyItemAccess>, t: string)
    ensures t in m.AllowedTypes(accesses) <==>
              exists i :: 0 <= i < |accesses| && accesses[i].isAllowed && accesses[i].accessType == t
  {
  }

  /** Some allowed access has a type among `kinds` exactly when the collected set meets `kinds`. */
  lemma AllowedTypesMeet(m: Mapper, accesses: seq<PolicyItemAccess>, kinds: set<string>)
    ensures m.AllowedTypes(accesses) * kinds != {} <==>
              exists i :: 0 <= i < |accesses| && accesses[i].isAllowed && accesses[i].accessType in kinds
  {
    var allowed := m.AllowedTypes(accesses);
    if exists i :: 0 <= i < |accesses| && accesses[i].isAllowed && accesses[i].accessType in kinds {
      var i :| 0 <= i < |accesses| && accesses[i].isAllowed && accesses[i].accessType in kinds;
      assert accesses[i].accessType in allowed * kinds;
    } else {
      forall t | t in allowed ensures t !in kinds {
        AllowedTypesMember(m, accesses, t);
      }
      assert allowed * kinds == {};
    }
  }

  /** Accesses that are not allowed never change the role. */
  lemma DisallowedAccessIgnored(m: Mapper, before: seq<PolicyItemAccess>, after: seq<PolicyItemAccess>, accessType: string)
    ensures m.GetRoleForAccesses(before + [PolicyItemAccess(accessType, false)] + after)
              == m.GetRoleForAccesses(before + after)
  {
    var a := before + [PolicyItemAccess(accessType, false)] + after;
    var b := before + after;
    forall t | t in m.AllowedTypes(a) ensures t in m.AllowedTypes(b) {
      var i :| 0 <= i < |a| && a[i].isAllowed && a[i].accessType == t;
      if i < |before| {
        assert b[i] == a[i];
      } else {
        assert b[i - 1] == a[i];
      }
    }
    forall t | t in m.AllowedTypes(b) ensures t in m.AllowedTypes(a) {
      var i :| 0 <= i < |b| && b[i].isAllowed && b[i].accessType == t;
      if i < |before| {
        assert a[i] == b[i];
      } else {
        assert a[i + 1] == b[i];
      }
    }
    assert m.AllowedTypes(a) == m.AllowedTypes(b);
  }

  /** The role does not depend on the order in which accesses are listed. */
  lemma RoleIgnoresOrder(m: Mapper, a: seq<PolicyItemAccess>, b: seq<PolicyItemAccess>)
    ensures m.GetRoleForAccesses(a + b) == m.GetRoleForAccesses(b + a)
  {
    var ab, ba := a + b, b + a;
    forall t | t in m.AllowedTypes(ab) ensures t in m.AllowedTypes(ba) {
      var i :| 0 <= i < |ab| && ab[i].isAllowed && ab[i].accessType == t;
      if i < |a| {
        assert ba[|b| + i] == ab[i];
      } else {
        assert ba[i - |a|] == ab[i];
      }
    }
    forall t | t in m.AllowedTypes(ba) ensures t in m.AllowedTypes(ab) {
      var i :| 0 <= i < |ba| && ba[i].isAllowed && ba[i].accessType == t;
      if i < |b| {
        assert ab[|a| + i] == ba[i];
      } else {
        assert ab[i - |b|] == ba[i];
      }
    }
    assert m.AllowedTypes(ab) == m.AllowedTypes(ba);
  }

  /** An allowed `all` next to an allowed `select` gives the write role. */
  lemma WriteBeatsRead(m: Mapper)
    ensures m.GetRoleForAccesses([PolicyItemAccess("select", true), PolicyItemAccess("all", true)])
              == Some(m.writeIamRole)
    ensures m.GetRoleForAccesses([PolicyItemAccess("select", true), PolicyItemAccess("all", false)])
              == Some(m.readIamRole)
    ensures m.GetRoleForAccesses([PolicyItemAccess("execute", true)]) == None
  {
    var a := [PolicyItemAccess("select", true), PolicyItemAccess("all", true)];
    assert a[1].accessType in WriteAccesses;
    var b := [PolicyItemAccess("select", true), PolicyItemAccess("all", false)];
    assert b[0].accessType in ReadAccesses;
    assert b[0].accessType !in WriteAccesses;
    var c := [PolicyItemAccess("execute", true)];
    assert c[0].accessType !in WriteAccesses && c[0].accessType !in ReadAccesses;
  }
}
