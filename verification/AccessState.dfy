// The objects of the access manager, updated in place as the state machine says.
module AccessState {
  import opened Wrappers
  import opened Delays
  import opened Manager

  class RoleConfig {
    var members: map<Address, Access>
    var admin: RoleId
    var grantDelay: Delay

    function Contents(): Role
      reads this
    {
      Role(members, admin, grantDelay)
    }

    constructor (admin: RoleId, delay: Seconds)
      ensures Contents() == Role(map[], admin, NewDelay(delay))
    {
      this.members := map[];
      this.admin := admin;
      this.grantDelay := NewDelay(delay);
    }

    method Grant(account: Address, now: TimePoint) returns (added: bool)
      modifies this
      ensures added == (account !in old(members))
      ensures Contents() == if added then GrantTo(old(Contents()), account, now) else old(Contents())
    {
      if account in members { return false; }
      members := members[account := NewAccessWithDelay(now, grantDelay.Get(now))];
      return true;
    }

    method Revoke(account: Address) returns (found: bool)
      modifies this
      ensures found == (account in old(members))
      ensures Contents() == old(Contents()).(members := old(members) - {account})
    {
      found := account in members;
      if found {
        members := members - {account};
      } else {
        assert members - {account} == members;
      }
    }

    method SetAdmin(admin: RoleId)
      modifies this
      ensures Contents() == old(Contents()).(admin := admin)
    {
      this.admin := admin;
    }

    method SetGrantDelay(now: TimePoint, newDelay: Seconds)
      modifies this
      ensures Contents() == old(Contents()).(grantDelay := old(grantDelay).WithUpdate(now, newDelay, MIN_SETBACK).0)
    {
      var updated := grantDelay.WithUpdate(now, newDelay, MIN_SETBACK);
      grantDelay := updated.0;
    }
  }

  class TargetConfig {
    var functionRoles: map<string, RoleId>
    var closed: bool

    function Contents(): Target
      reads this
    {
      Target(functionRoles, closed)
    }

    constructor (closed: bool)
      ensures Contents() == Target(map[], closed)
    {
      this.functionRoles := map[];
      this.closed := closed;
    }

    method SetFunctionRoles(selectors: seq<string>, role: RoleId)
      modifies this
      ensures Contents() == Target(WithRoles(old(functionRoles), selectors, role), old(closed))
    {
      assert selectors[0..] == selectors;
      for i := 0 to |selectors|
        invariant closed == old(closed)
        invariant WithRoles(old(functionRoles), selectors, role) == WithRoles(functionRoles, selectors[i..], role)
      {
        assert selectors[i..][1..] == selectors[i + 1..];
        functionRoles := functionRoles[selectors[i] := role];
      }
    }

    method SetClosed(closed: bool)
      modifies this
      ensures Contents() == old(Contents()).(closed := closed)
    {
      this.closed := closed;
    }
  }

  // What an operation leaves behind is what the state machine says, refusals included.
  predicate Agrees(before: Manager, now: TimePoint, op: Op, after: Manager, r: Outcome<bool, ManagerError>)
  {
    match Step(before, now, op)
    case Ok(next) => r == Ok(next.1) && after == next.0
    case Err(e) => r == Err(e) && after == before
  }

  lemma UpdatedTwice<K, V>(m: map<K, V>, k: K, u: V, v: V)
    ensures m[k := u][k := v] == m[k := v]
  {
  }

  class State {
    var roles: map<RoleId, RoleConfig>
    var targets: map<string, TargetConfig>

    // No two roles and no two targets share their configuration.
    ghost predicate Valid()
      reads this
    {
      && (forall r, s :: r in roles && s in roles && r != s ==> roles[r] != roles[s])
      && (forall t, u :: t in targets && u in targets && t != u ==> targets[t] != targets[u])
    }

    ghost function Contents(): Manager
      reads this, roles.Values, targets.Values
    {
      Manager(map r | r in roles :: roles[r].Contents(), map t | t in targets :: targets[t].Contents())
    }

    constructor ()
      ensures Valid() && Contents() == Manager(map[], map[])
    {
      roles := map[];
      targets := map[];
    }

    method EnsureRole(role: RoleId)
      requires Valid()
      modifies this`roles
      ensures Valid() && fresh(roles.Values - old(roles.Values))
      ensures role in roles && roles[role].Contents() == old(Contents()).RoleOf(role)
      ensures Contents() == old(Contents().(roles := Contents().roles[role := Contents().RoleOf(role)]))
    {
      if role !in roles {
        var config := new RoleConfig(ADMIN_ROLE, 0);
        roles := roles[role := config];
        RoleAdded(role);
      } else {
        assert Contents().roles == Contents().roles[role := roles[role].Contents()];
      }
    }

    method EnsureTarget(target: string)
      requires Valid()
      modifies this`targets
      ensures Valid() && fresh(targets.Values - old(targets.Values))
      ensures target in targets && targets[target].Contents() == old(Contents()).TargetOf(target)
      ensures Contents()
           == old(Contents().(targets := Contents().targets[target := Contents().TargetOf(target)]))
    {
      if target !in targets {
        var config := new TargetConfig(false);
        targets := targets[target := config];
        TargetAdded(target);
      } else {
        assert Contents().targets == Contents().targets[target := targets[target].Contents()];
      }
    }

    // A new role's object adds that role only.
    twostate lemma RoleAdded(role: RoleId)
      requires role !in old(roles) && role in roles && targets == old(targets)
      requires roles.Keys == old(roles).Keys + {role} && forall r :: r in old(roles) ==> roles[r] == old(roles)[r]
      requires forall r :: r in old(roles) ==> roles[r].Contents() == old(roles[r].Contents())
      requires forall t :: t in targets ==> targets[t].Contents() == old(targets[t].Contents())
      ensures Contents() == old(Contents()).(roles := old(Contents()).roles[role := roles[role].Contents()])
    {
      assert Contents().roles == old(Contents()).roles[role := roles[role].Contents()];
      assert Contents().targets == old(Contents()).targets;
    }

    twostate lemma TargetAdded(target: string)
      requires target !in old(targets) && target in targets && roles == old(roles)
      requires targets.Keys == old(targets).Keys + {target}
      requires forall t :: t in old(targets) ==> targets[t] == old(targets)[t]
      requires forall t :: t in old(targets) ==> targets[t].Contents() == old(targets[t].Contents())
      requires forall r :: r in roles ==> roles[r].Contents() == old(roles[r].Contents())
      ensures Contents() == old(Contents()).(targets := old(Contents()).targets[target := targets[target].Contents()])
    {
      assert Contents().targets == old(Contents()).targets[target := targets[target].Contents()];
      assert Contents().roles == old(Contents()).roles;
    }

    // Changing one role's object changes that role only.
    twostate lemma RoleChanged(role: RoleId)
      requires Valid() && role in roles && roles == old(roles) && targets == old(targets)
      requires forall r :: r in roles && r != role ==> roles[r].Contents() == old(roles[r].Contents())
      requires forall t :: t in targets ==> targets[t].Contents() == old(targets[t].Contents())
      ensures Contents() == old(Contents()).(roles := old(Contents()).roles[role := roles[role].Contents()])
    {
      assert Contents().roles == old(Contents()).roles[role := roles[role].Contents()];
      assert Contents().targets == old(Contents()).targets;
    }

    twostate lemma TargetChanged(target: string)
      requires Valid() && target in targets && roles == old(roles) && targets == old(targets)
      requires forall t :: t in targets && t != target ==> targets[t].Contents() == old(targets[t].Contents())
      requires forall r :: r in roles ==> roles[r].Contents() == old(roles[r].Contents())
      ensures Contents() == old(Contents()).(targets := old(Contents()).targets[target := targets[target].Contents()])
    {
      assert Contents().targets == old(Contents()).targets[target := targets[target].Contents()];
      assert Contents().roles == old(Contents()).roles;
    }

    // ---- queries ----

    method HasRole(role: RoleId, account: Address, now: TimePoint) returns (member: bool)
      requires Valid()
      ensures member == Contents().HasRole(role, account, now)
    {
      if role == PUBLIC_ROLE { return true; }
      if role !in roles { return false; }
      if account !in roles[role].members { return false; }
      return roles[role].members[account].IsActiveAt(now);
    }

    method CanCall(caller: Address, target: string, selector: string, now: TimePoint) returns (immediate: bool)
      requires Valid()
      ensures immediate == Contents().CanCall(caller, target, selector, now)
    {
      if target in targets && targets[target].closed { return false; }
      var role := ADMIN_ROLE;
      if target in targets && selector in targets[target].functionRoles {
        role := targets[target].functionRoles[selector];
      }
      immediate := HasRole(role, caller, now);
    }

    // Looks through the members for another active one.
    method IsLastAdmin(account: Address, now: TimePoint) returns (last: bool)
      requires Valid()
      ensures last == Contents().IsLastAdmin(account, now)
    {
      var isMember := HasRole(ADMIN_ROLE, account, now);
      if !isMember { return false; }
      var members := roles[ADMIN_ROLE].members;
      var rest := members.Keys;
      while rest != {}
        invariant rest <= members.Keys
        invariant forall other :: other in members.Keys - rest && other != account ==> !members[other].IsActiveAt(now)
        decreases |rest|
      {
        var member :| member in rest;
        if member != account && members[member].IsActiveAt(now) { return false; }
        rest := rest - {member};
      }
      return true;
    }

    // ---- role management ----

    method GrantRole(role: RoleId, account: Address, now: TimePoint) returns (r: Outcome<bool, ManagerError>)
      requires Valid()
      modifies this, roles.Values
      ensures Valid() && fresh(roles.Values - old(roles.Values)) && fresh(targets.Values - old(targets.Values))
      ensures Agrees(old(Contents()), now, Grant(role, account), Contents(), r)
    {
      hide State.Contents;
      if role == PUBLIC_ROLE { return Err(LockedRole); }
      ghost var before := Contents();
      EnsureRole(role);
      label ensured:
      var added := roles[role].Grant(account, now);
      RoleChanged@ensured(role);
      UpdatedTwice(before.roles, role, before.RoleOf(role), roles[role].Contents());
      return Ok(added);
    }

    method RevokeRole(role: RoleId, account: Address, now: TimePoint) returns (r: Outcome<bool, ManagerError>)
      requires Valid()
      modifies this, roles.Values
      ensures Valid() && fresh(roles.Values - old(roles.Values)) && fresh(targets.Values - old(targets.Values))
      ensures Agrees(old(Contents()), now, Op.Revoke(role, account), Contents(), r)
    {
      hide State.Contents;
      if role == PUBLIC_ROLE { return Err(LockedRole); }
      ghost var before := Contents();
      EnsureRole(role);
      if role == ADMIN_ROLE {
        var last := IsLastAdmin(account, now);
        if last {
          assert Contents().roles == old(Contents()).roles;
          return Err(LastAdmin);
        }
      }
      label ensured:
      var found := roles[role].Revoke(account);
      RoleChanged@ensured(role);
      UpdatedTwice(before.roles, role, before.RoleOf(role), roles[role].Contents());
      return Ok(found);
    }

    method RenounceRole(role: RoleId, account: Address, confirmation: Address, now: TimePoint)
      returns (r: Outcome<bool, ManagerError>)
      requires Valid()
      modifies this, roles.Values
      ensures Valid() && fresh(roles.Values - old(roles.Values)) && fresh(targets.Values - old(targets.Values))
      ensures Agrees(old(Contents()), now, Op.Renounce(role, account, confirmation), Contents(), r)
    {
      if account != confirmation { return Err(BadConfirmation); }
      r := RevokeRole(role, account, now);
    }

    method SetRoleAdmin(role: RoleId, admin: RoleId, now: TimePoint) returns (r: Outcome<bool, ManagerError>)
      requires Valid()
      modifies this, roles.Values
      ensures Valid() && fresh(roles.Values - old(roles.Values)) && fresh(targets.Values - old(targets.Values))
      ensures Agrees(old(Contents()), now, Op.SetRoleAdmin(role, admin), Contents(), r)
    {
      hide State.Contents;
      if role == ADMIN_ROLE || role == PUBLIC_ROLE { return Err(LockedRole); }
      ghost var before := Contents();
      EnsureRole(role);
      label ensured:
      roles[role].SetAdmin(admin);
      RoleChanged@ensured(role);
      UpdatedTwice(before.roles, role, before.RoleOf(role), roles[role].Contents());
      return Ok(false);
    }

    method SetGrantDelay(role: RoleId, newDelay: Seconds, now: TimePoint) returns (r: Outcome<bool, ManagerError>)
      requires Valid()
      modifies this, roles.Values
      ensures Valid() && fresh(roles.Values - old(roles.Values)) && fresh(targets.Values - old(targets.Values))
      ensures Agrees(old(Contents()), now, Op.SetGrantDelay(role, newDelay), Contents(), r)
    {
      hide State.Contents;
      if role == PUBLIC_ROLE { return Err(LockedRole); }
      ghost var before := Contents();
      EnsureRole(role);
      label ensured:
      roles[role].SetGrantDelay(now, newDelay);
      RoleChanged@ensured(role);
      UpdatedTwice(before.roles, role, before.RoleOf(role), roles[role].Contents());
      return Ok(false);
    }

    // ---- targets ----

    method SetTargetFunctionRoles(target: string, selectors: seq<string>, role: RoleId, now: TimePoint)
      requires Valid()
      modifies this, targets.Values
      ensures Valid() && fresh(roles.Values - old(roles.Values)) && fresh(targets.Values - old(targets.Values))
      ensures Agrees(old(Contents()), now, Op.SetTargetFunctionRoles(target, selectors, role), Contents(), Ok(false))
    {
      hide State.Contents;
      ghost var before := Contents();
      EnsureTarget(target);
      label ensured:
      targets[target].SetFunctionRoles(selectors, role);
      TargetChanged@ensured(target);
      UpdatedTwice(before.targets, target, before.TargetOf(target), targets[target].Contents());
    }

    method SetTargetClosed(target: string, closed: bool, now: TimePoint)
      requires Valid()
      modifies this, targets.Values
      ensures Valid() && fresh(roles.Values - old(roles.Values)) && fresh(targets.Values - old(targets.Values))
      ensures Agrees(old(Contents()), now, Op.SetTargetClosed(target, closed), Contents(), Ok(false))
    {
      hide State.Contents;
      ghost var before := Contents();
      EnsureTarget(target);
      label ensured:
      targets[target].SetClosed(closed);
      TargetChanged@ensured(target);
      UpdatedTwice(before.targets, target, before.TargetOf(target), targets[target].Contents());
    }
  }
}
