// The access manager as a state machine: what each operation does to roles and targets.
module Manager {
  import opened Words
  import opened Wrappers
  import opened Delays

  type RoleId = Word
  type Address = string

  const ADMIN_ROLE: RoleId := 0
  const PUBLIC_ROLE: RoleId := B - 1

  datatype Role = Role(members: map<Address, Access>, admin: RoleId, grantDelay: Delay) {

    predicate HasMember(account: Address, now: TimePoint)
    {
      account in members && members[account].IsActiveAt(now)
    }
  }

  datatype Target = Target(functionRoles: map<string, RoleId>, closed: bool)

  datatype Manager = Manager(roles: map<RoleId, Role>, targets: map<string, Target>) {

    function RoleOf(role: RoleId): Role
    {
      if role in roles then roles[role] else NEW_ROLE
    }

    function TargetOf(target: string): Target
    {
      if target in targets then targets[target] else Target(map[], false)
    }

    predicate HasRole(role: RoleId, account: Address, now: TimePoint)
    {
      role == PUBLIC_ROLE || (role in roles && roles[role].HasMember(account, now))
    }

    function FunctionRole(target: string, selector: string): RoleId
    {
      var roles := TargetOf(target).functionRoles;
      if selector in roles then roles[selector] else ADMIN_ROLE
    }

    predicate CanCall(caller: Address, target: string, selector: string, now: TimePoint)
    {
      !TargetOf(target).closed && HasRole(FunctionRole(target, selector), caller, now)
    }

    // Whether an account is the only active member of the admin role.
    predicate IsLastAdmin(account: Address, now: TimePoint)
    {
      && HasRole(ADMIN_ROLE, account, now)
      && forall other <- RoleOf(ADMIN_ROLE).members :: other != account ==> !HasRole(ADMIN_ROLE, other, now)
    }
  }

  const NEW_ROLE: Role := Role(map[], ADMIN_ROLE, NewDelay(0))

  datatype Op =
    | Grant(role: RoleId, account: Address)
    | Revoke(role: RoleId, account: Address)
    | Renounce(role: RoleId, account: Address, confirmation: Address)
    | SetRoleAdmin(role: RoleId, admin: RoleId)
    | SetGrantDelay(role: RoleId, newDelay: Seconds)
    | SetTargetFunctionRoles(target: string, selectors: seq<string>, role: RoleId)
    | SetTargetClosed(target: string, closed: bool)

  datatype ManagerError = LockedRole | BadConfirmation | LastAdmin

  // The state after an operation and whether a membership came or went; or why it is refused.
  type Result = Outcome<(Manager, bool), ManagerError>

  function GrantTo(r: Role, account: Address, now: TimePoint): Role
  {
    r.(members := r.members[account := NewAccessWithDelay(now, r.grantDelay.Get(now))])
  }

  function WithRoles(functionRoles: map<string, RoleId>, selectors: seq<string>, role: RoleId): map<string, RoleId>
    decreases selectors
  {
    if |selectors| == 0 then functionRoles
    else WithRoles(functionRoles[selectors[0] := role], selectors[1..], role)
  }

  function Revoked(m: Manager, now: TimePoint, role: RoleId, account: Address): Result
  {
    var r := m.RoleOf(role);
    if role == PUBLIC_ROLE then Err(LockedRole)
    else if role == ADMIN_ROLE && m.IsLastAdmin(account, now) then Err(LastAdmin)
    else Ok((m.(roles := m.roles[role := r.(members := r.members - {account})]), account in r.members))
  }

  function Step(m: Manager, now: TimePoint, op: Op): Result
  {
    match op
    case Grant(role, account) =>
      var r := m.RoleOf(role);
      if role == PUBLIC_ROLE then Err(LockedRole)
      else if account in r.members then Ok((m.(roles := m.roles[role := r]), false))
      else Ok((m.(roles := m.roles[role := GrantTo(r, account, now)]), true))
    case Revoke(role, account) => Revoked(m, now, role, account)
    case Renounce(role, account, confirmation) =>
      if account != confirmation then Err(BadConfirmation) else Revoked(m, now, role, account)
    case SetRoleAdmin(role, admin) =>
      if role == ADMIN_ROLE || role == PUBLIC_ROLE then Err(LockedRole)
      else Ok((m.(roles := m.roles[role := m.RoleOf(role).(admin := admin)]), false))
    case SetGrantDelay(role, newDelay) =>
      var r := m.RoleOf(role);
      if role == PUBLIC_ROLE then Err(LockedRole)
      else
        var updated := r.grantDelay.WithUpdate(now, newDelay, MIN_SETBACK).0;
        Ok((m.(roles := m.roles[role := r.(grantDelay := updated)]), false))
    case SetTargetFunctionRoles(target, selectors, role) =>
      var t := m.TargetOf(target);
      var updated := t.(functionRoles := WithRoles(t.functionRoles, selectors, role));
      Ok((m.(targets := m.targets[target := updated]), false))
    case SetTargetClosed(target, closed) =>
      Ok((m.(targets := m.targets[target := m.TargetOf(target).(closed := closed)]), false))
  }
}
