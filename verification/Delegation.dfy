/**
 Roles of a trust root: their keys and thresholds, and the delegation walk that must lead
 every role back to the root role.
 */
module Delegation {
  import opened Basics
  import opened TrustTypes

  type RoleTable = map<string, Role>

  const ROOT := "root"

  function TableOf(entries: seq<Option<Role>>): RoleTable {
    if entries == [] then map[]
    else
      var n := |entries| - 1;
      var table := TableOf(entries[..n]);
      if entries[n].Some? && entries[n].value.id.Some?
      then table[entries[n].value.id.value := entries[n].value]
      else table
  }

  predicate Repeats(s: seq<string>) {
    exists i, j :: 0 <= i < j < |s| && s[i] == s[j]
  }

  /** Distinct known keys, at least as many as the threshold asks for. */
  predicate Staffed(role: Role, keys: set<string>) {
    && role.keyIds.Some?
    && !Repeats(role.keyIds.value)
    && role.threshold.Some?
    && role.threshold.value <= |role.keyIds.value|
    && forall k :: k in role.keyIds.value ==> k in keys
  }

  predicate EntryAccepted(before: seq<Option<Role>>, entry: Option<Role>, keys: set<string>) {
    && entry.Some?
    && entry.value.id.Some?
    && entry.value.id.value !in TableOf(before)
    && Staffed(entry.value, keys)
  }

  ghost predicate EntriesAccepted(entries: seq<Option<Role>>, keys: set<string>) {
    entries == [] ||
    (var n := |entries| - 1; EntriesAccepted(entries[..n], keys) && EntryAccepted(entries[..n], entries[n], keys))
  }

  /** Following delegations from `role` reaches the root role within `n` steps. */
  ghost predicate Reaches(roles: RoleTable, role: string, n: nat)
    decreases n
  {
    || role == ROOT
    || (n > 0 && role in roles && roles[role].delegatedBy.Some? && Reaches(roles, roles[role].delegatedBy.value, n - 1))
  }

  ghost predicate Delegated(roles: RoleTable, role: string) {
    exists n: nat :: Reaches(roles, role, n)
  }

  ghost predicate DelegationsSound(roles: RoleTable) {
    && (forall id :: id in roles ==> Delegated(roles, id))
    && (ROOT in roles ==> roles[ROOT].delegatedBy.None?)
  }

  ghost predicate RolesSound(entries: seq<Option<Role>>, keys: set<string>) {
    EntriesAccepted(entries, keys) && DelegationsSound(TableOf(entries))
  }

  /** Names that only delegate among themselves never reach the root role. */
  lemma {:induction false} TrappedNeverReaches(roles: RoleTable, trap: set<string>, role: string, n: nat)
    requires role in trap && ROOT !in trap
    requires forall x :: x in trap ==> x in roles && roles[x].delegatedBy.Some? && roles[x].delegatedBy.value in trap
    ensures !Reaches(roles, role, n)
    decreases n
  {
    if n == 0 {
    } else {
      TrappedNeverReaches(roles, trap, roles[role].delegatedBy.value, n - 1);
    }
  }

  lemma StepReaches(roles: RoleTable, role: string)
    requires role != ROOT && role in roles && roles[role].delegatedBy.Some?
    ensures Delegated(roles, role) <==> Delegated(roles, roles[role].delegatedBy.value)
  {
    var parent := roles[role].delegatedBy.value;
    if Delegated(roles, role) {
      var n: nat :| Reaches(roles, role, n);
      assert Reaches(roles, parent, n - 1);
    }
    if Delegated(roles, parent) {
      var n: nat :| Reaches(roles, parent, n);
      assert Reaches(roles, role, n + 1);
    }
  }

  /** The walk from one role, with the set of names it has passed. */
  method Walk(roles: RoleTable, role: string) returns (ok: bool)
    ensures ok <==> Delegated(roles, role)
  {
    var seen: set<string> := {};
    var current := role;
    while current != ROOT
      invariant ROOT !in seen && seen <= roles.Keys
      invariant forall x :: x in seen ==>
                roles[x].delegatedBy.Some? &&
                  (roles[x].delegatedBy.value in seen || roles[x].delegatedBy.value == current)
      invariant Delegated(roles, role) <==> Delegated(roles, current)
      decreases roles.Keys - seen
    {
      if current in seen {
        forall n: nat ensures !Reaches(roles, current, n) {
          TrappedNeverReaches(roles, seen, current, n);
        }
        return false;
      }
      if current !in roles {
        return false;
      }
      var parent := roles[current].delegatedBy;
      if parent.None? {
        return false;
      }
      StepReaches(roles, current);
      seen := seen + {current};
      current := parent.value;
    }
    assert Reaches(roles, current, 0);
    ok := true;
  }

  /** Builds the role table and decides whether any role is invalid. */
  method RoleMaps(entries: seq<Option<Role>>, keys: set<string>) returns (roles: RoleTable, sound: bool)
    ensures roles == TableOf(entries)
    ensures sound <==> RolesSound(entries, keys)
  {
    roles, sound := map[], true;
    for i := 0 to |entries|
      invariant roles == TableOf(entries[..i])
      invariant sound <==> EntriesAccepted(entries[..i], keys)
    {
      var entry := entries[i];
      assert entries[..i + 1][..i] == entries[..i];
      if entry.None? || entry.value.id.None? {
        sound := false;
      } else {
        var id := entry.value.id.value;
        if id in roles {
          sound := false;
        }
        roles := roles[id := entry.value];
        if !Staffed(entry.value, keys) {
          sound := false;
        }
      }
    }
    assert entries[..|entries|] == entries;
    var delegated := CheckDelegations(roles);
    sound := sound && delegated;
  }

  method CheckDelegations(roles: RoleTable) returns (sound: bool)
    ensures sound <==> DelegationsSound(roles)
  {
    sound := ROOT in roles ==> roles[ROOT].delegatedBy.None?;
    var rest := roles.Keys;
    while rest != {}
      invariant rest <= roles.Keys
      invariant sound <==> (forall id :: id in roles && id !in rest ==> Delegated(roles, id)) &&
                           (ROOT in roles ==> roles[ROOT].delegatedBy.None?)
    {
      var id := PickAny(rest);
      var ok := Walk(roles, id);
      sound := sound && ok;
      rest := rest - {id};
    }
  }
}
