// What a caller of the access manager can read after an operation, and after any run of them.
module ManagerLaws {
  import opened Bytes
  import opened Wrappers
  import opened Delays
  import opened Manager
  import opened ManagerRuns

  // ---- one operation ----

  // An account is the only admin in terms of what HasRole says of everybody.
  ghost predicate OnlyAdmin(m: Manager, account: Address, now: TimePoint)
  {
    m.HasRole(ADMIN_ROLE, account, now) && forall other :: m.HasRole(ADMIN_ROLE, other, now) ==> other == account
  }

  lemma OnlyAdminIsLast(m: Manager, account: Address, now: TimePoint)
    ensures m.IsLastAdmin(account, now) <==> OnlyAdmin(m, account, now)
  {
  }

  // The operation refused, and why; and what is reported otherwise: whether a membership came or went.
  lemma Refusals(m: Manager, now: TimePoint, role: RoleId, account: Address)
    ensures var r := Step(m, now, Grant(role, account));
            && (r == Err(LockedRole) <==> role == PUBLIC_ROLE)
            && (role != PUBLIC_ROLE ==> r.Ok? && r.value.1 == (account !in m.RoleOf(role).members))
    ensures var r := Step(m, now, Revoke(role, account));
            && (r == Err(LockedRole) <==> role == PUBLIC_ROLE)
            && (r == Err(LastAdmin) <==> role == ADMIN_ROLE && OnlyAdmin(m, account, now))
            && (r.Err? ==> r.error == LockedRole || r.error == LastAdmin)
            && (r.Ok? ==> r.value.1 == (account in m.RoleOf(role).members))
    ensures forall confirmation :: Step(m, now, Renounce(role, account, confirmation))
              == if confirmation == account then Step(m, now, Revoke(role, account)) else Err(BadConfirmation)
    ensures forall admin :: var r := Step(m, now, SetRoleAdmin(role, admin));
              if role == ADMIN_ROLE || role == PUBLIC_ROLE then r == Err(LockedRole) else r.Ok? && !r.value.1
    ensures forall newDelay :: var r := Step(m, now, SetGrantDelay(role, newDelay));
              if role == PUBLIC_ROLE then r == Err(LockedRole) else r.Ok? && !r.value.1
  {
    OnlyAdminIsLast(m, account, now);
  }

  // Everybody has the public role, always.
  lemma EverybodyIsPublic(m: Manager, account: Address, now: TimePoint)
    ensures m.HasRole(PUBLIC_ROLE, account, now)
  {
  }

  // The operations that may change an account's membership of a role.
  predicate Removes(op: Op, role: RoleId, account: Address)
  {
    (op.Revoke? || op.Renounce?) && op.role == role && op.account == account
  }

  // Granted to somebody who is not a member, a role is held from the end of the delay in force on, and not
  // before.
  lemma GrantStarts(m: Manager, now: TimePoint, role: RoleId, account: Address, later: TimePoint)
    requires role != PUBLIC_ROLE && account !in m.RoleOf(role).members && 0 < now <= MAX_CLOCK
    ensures After(m, Event(now, Grant(role, account))).HasRole(role, account, later)
       <==> now + m.RoleOf(role).grantDelay.Get(now) <= later
  {
    AccessStarts(now, m.RoleOf(role).grantDelay.Get(now), later);
  }

  // A member keeps the membership as it is when the role is granted again.
  lemma GrantTwice(m: Manager, now: TimePoint, role: RoleId, account: Address, later: TimePoint)
    requires account in m.RoleOf(role).members
    ensures After(m, Event(now, Grant(role, account))).HasRole(role, account, later) == m.HasRole(role, account, later)
  {
  }

  // A revoked account no longer has the role.
  lemma RevokeEnds(m: Manager, now: TimePoint, op: Op, later: TimePoint)
    requires (op.Revoke? || op.Renounce?) && Step(m, now, op).Ok?
    ensures op.account !in After(m, Event(now, op)).RoleOf(op.role).members
    ensures !After(m, Event(now, op)).HasRole(op.role, op.account, later)
  {
  }

  // What is said of an account in a role changes only by granting the role to it or taking it away.
  predicate SameMembership(m: Manager, m': Manager, role: RoleId, account: Address)
  {
    && (account in m.RoleOf(role).members <==> account in m'.RoleOf(role).members)
    && (account in m.RoleOf(role).members ==> m.RoleOf(role).members[account] == m'.RoleOf(role).members[account])
  }

  lemma OthersKeepRoles(m: Manager, e: Event, role: RoleId, account: Address)
    requires !Removes(e.op, role, account) && e.op != Grant(role, account)
    ensures SameMembership(m, After(m, e), role, account)
  {
  }

  lemma MembersKeepRoles(m: Manager, e: Event, role: RoleId, account: Address)
    requires !Removes(e.op, role, account) && account in m.RoleOf(role).members
    ensures SameMembership(m, After(m, e), role, account)
  {
  }

  lemma SameHasRole(m: Manager, m': Manager, role: RoleId, account: Address, now: TimePoint)
    requires SameMembership(m, m', role, account)
    ensures m.HasRole(role, account, now) == m'.HasRole(role, account, now)
  {
  }

  // The admin of a role is what was set last, and the delay and the members stay.
  lemma AdminIsSet(m: Manager, now: TimePoint, role: RoleId, admin: RoleId)
    requires role != ADMIN_ROLE && role != PUBLIC_ROLE
    ensures After(m, Event(now, SetRoleAdmin(role, admin))).RoleOf(role).admin == admin
  {
  }

  lemma OthersKeepAdmin(m: Manager, e: Event, role: RoleId)
    requires !(e.op.SetRoleAdmin? && e.op.role == role)
    ensures After(m, e).RoleOf(role).admin == m.RoleOf(role).admin
  {
  }

  lemma OthersKeepDelay(m: Manager, e: Event, role: RoleId)
    requires !(e.op.SetGrantDelay? && e.op.role == role)
    ensures After(m, e).RoleOf(role).grantDelay == m.RoleOf(role).grantDelay
  {
  }

  // ---- runs ----

  // No event of the run does what the predicate says.
  ghost predicate Without(events: seq<Event>, p: Op -> bool)
  {
    forall i :: 0 <= i < |events| ==> !p(events[i].op)
  }

  const EMPTY: Manager := Manager(map[], map[])

  // Whoever is a member stays one, with the same start, until the role is taken away.
  lemma {:induction false} MembershipLasts(m: Manager, events: seq<Event>, role: RoleId, account: Address)
    requires account in m.RoleOf(role).members && Without(events, (op: Op) => Removes(op, role, account))
    ensures SameMembership(m, Run(m, events), role, account)
    decreases events
  {
    hide Step;
    if |events| > 0 {
      MembersKeepRoles(m, events[0], role, account);
      MembershipLasts(After(m, events[0]), events[1..], role, account);
    }
  }

  // Whoever is no member stays none until the role is granted.
  lemma {:induction false} StrangersStay(m: Manager, events: seq<Event>, role: RoleId, account: Address)
    requires account !in m.RoleOf(role).members && Without(events, (op: Op) => op == Grant(role, account))
    ensures account !in Run(m, events).RoleOf(role).members
    decreases events
  {
    hide Step;
    if |events| > 0 {
      if Removes(events[0].op, role, account) {
        RemovedOrNot(m, events[0], role, account);
      } else {
        OthersKeepRoles(m, events[0], role, account);
      }
      StrangersStay(After(m, events[0]), events[1..], role, account);
    }
  }

  lemma RemovedOrNot(m: Manager, e: Event, role: RoleId, account: Address)
    requires Removes(e.op, role, account) && account !in m.RoleOf(role).members
    ensures account !in After(m, e).RoleOf(role).members
  {
  }

  // From the grant on and until the role is taken away, an account has the role exactly from the end of the
  // delay that was in force at the grant.
  lemma GrantedRun(m: Manager, now: TimePoint, role: RoleId, account: Address, events: seq<Event>, later: TimePoint)
    requires role != PUBLIC_ROLE && account !in m.RoleOf(role).members && 0 < now <= MAX_CLOCK
    requires Without(events, (op: Op) => Removes(op, role, account))
    ensures Run(After(m, Event(now, Grant(role, account))), events).HasRole(role, account, later)
       <==> now + m.RoleOf(role).grantDelay.Get(now) <= later
  {
    hide Step, Run;
    var m' := After(m, Event(now, Grant(role, account)));
    GrantStarts(m, now, role, account, later);
    GrantedIsMember(m, now, role, account);
    MembershipLasts(m', events, role, account);
    SameHasRole(m', Run(m', events), role, account, later);
  }

  lemma GrantedIsMember(m: Manager, now: TimePoint, role: RoleId, account: Address)
    requires role != PUBLIC_ROLE
    ensures account in After(m, Event(now, Grant(role, account))).RoleOf(role).members
  {
  }

  // After it is taken away, nobody has a role again before it is granted again.
  lemma RevokedRun(m: Manager, now: TimePoint, op: Op, events: seq<Event>, later: TimePoint)
    requires (op.Revoke? || op.Renounce?) && Step(m, now, op).Ok?
    requires Without(events, (next: Op) => next == Grant(op.role, op.account))
    ensures !Run(After(m, Event(now, op)), events).HasRole(op.role, op.account, later)
  {
    hide Run;
    RevokeEnds(m, now, op, later);
    StrangersStay(After(m, Event(now, op)), events, op.role, op.account);
    NotPublic(m, now, op);
  }

  lemma NotPublic(m: Manager, now: TimePoint, op: Op)
    requires (op.Revoke? || op.Renounce?) && Step(m, now, op).Ok?
    ensures op.role != PUBLIC_ROLE
  {
  }

  // Who was never granted a role does not have it.
  lemma NeverGranted(events: seq<Event>, role: RoleId, account: Address, later: TimePoint)
    requires role != PUBLIC_ROLE && Without(events, (op: Op) => op == Grant(role, account))
    ensures !Run(EMPTY, events).HasRole(role, account, later)
  {
    hide Run;
    StrangersStay(EMPTY, events, role, account);
  }

  // A requested change of a delay takes effect after its setback, in every run without another change of
  // that delay: before it the old value is in force, and from then on the new one.
  lemma ChangeTakesEffect(m: Manager, now: TimePoint, role: RoleId, newDelay: Seconds, events: seq<Event>,
                          later: TimePoint)
    requires role != PUBLIC_ROLE && now <= MAX_CLOCK && now <= later
    requires Without(events, (op: Op) => op.SetGrantDelay? && op.role == role)
    ensures var v := m.RoleOf(role).grantDelay.Get(now);
            var setback := if v - newDelay > 432000 then v - newDelay else 432000;
            var m' := Run(After(m, Event(now, SetGrantDelay(role, newDelay))), events);
            m'.RoleOf(role).grantDelay.Get(later) == if later < now + setback then v else newDelay
  {
    hide Run;
    var m' := After(m, Event(now, SetGrantDelay(role, newDelay)));
    UpdateTakesEffect(m.RoleOf(role).grantDelay, now, newDelay, MIN_SETBACK);
    DelayLasts(m', events, role);
  }

  lemma {:induction false} DelayLasts(m: Manager, events: seq<Event>, role: RoleId)
    requires Without(events, (op: Op) => op.SetGrantDelay? && op.role == role)
    ensures Run(m, events).RoleOf(role).grantDelay == m.RoleOf(role).grantDelay
    decreases events
  {
    hide Step;
    if |events| > 0 {
      OthersKeepDelay(m, events[0], role);
      DelayLasts(After(m, events[0]), events[1..], role);
    }
  }

  // So a role granted after the change has taken effect waits for the new delay.
  lemma NewDelayBinds(m: Manager, now: TimePoint, role: RoleId, newDelay: Seconds, events: seq<Event>,
                      granted: TimePoint, account: Address, more: seq<Event>, later: TimePoint)
    requires role != PUBLIC_ROLE && 0 < now <= granted <= MAX_CLOCK
    requires Without(events, (op: Op) => op.SetGrantDelay? && op.role == role)
    requires Without(more, (op: Op) => Removes(op, role, account))
    requires var v := m.RoleOf(role).grantDelay.Get(now); granted >= now + 432000 && granted >= now + v - newDelay
    requires account !in Run(After(m, Event(now, SetGrantDelay(role, newDelay))), events).RoleOf(role).members
    ensures var m' := Run(After(m, Event(now, SetGrantDelay(role, newDelay))), events);
            (Run(After(m', Event(granted, Grant(role, account))), more).HasRole(role, account, later)
             <==> granted + newDelay <= later)
  {
    hide Run, Step;
    ChangeTakesEffect(m, now, role, newDelay, events, granted);
    GrantedRun(Run(After(m, Event(now, SetGrantDelay(role, newDelay))), events), granted, role, account, more, later);
  }

  // A role whose delay was never set has none.
  lemma DefaultDelay(events: seq<Event>, role: RoleId, now: TimePoint)
    requires Without(events, (op: Op) => op.SetGrantDelay? && op.role == role) && now >= 0
    ensures Run(EMPTY, events).RoleOf(role).grantDelay.Get(now) == 0
  {
    hide Run;
    DelayLasts(EMPTY, events, role);
  }

  // The admin of a role is the one set last, and the admin role by default.
  lemma {:induction false} AdminLasts(m: Manager, events: seq<Event>, role: RoleId)
    requires Without(events, (op: Op) => op.SetRoleAdmin? && op.role == role)
    ensures Run(m, events).RoleOf(role).admin == m.RoleOf(role).admin
    decreases events
  {
    hide Step;
    if |events| > 0 {
      OthersKeepAdmin(m, events[0], role);
      AdminLasts(After(m, events[0]), events[1..], role);
    }
  }

  lemma AdminOfRun(m: Manager, now: TimePoint, role: RoleId, admin: RoleId, events: seq<Event>)
    requires role != ADMIN_ROLE && role != PUBLIC_ROLE && Without(events, (op: Op) => op.SetRoleAdmin? && op.role == role)
    ensures Run(After(m, Event(now, SetRoleAdmin(role, admin))), events).RoleOf(role).admin == admin
    ensures Run(EMPTY, events).RoleOf(role).admin == ADMIN_ROLE
  {
    hide Run;
    AdminIsSet(m, now, role, admin);
    AdminLasts(After(m, Event(now, SetRoleAdmin(role, admin))), events, role);
    AdminLasts(EMPTY, events, role);
  }

  // ---- calls ----

  predicate SetsRole(op: Op, target: string, selector: string)
  {
    op.SetTargetFunctionRoles? && op.target == target && selector in op.selectors
  }

  predicate SetsClosed(op: Op, target: string)
  {
    op.SetTargetClosed? && op.target == target
  }

  // Setting roles sets those of the listed selectors and no others.
  lemma {:induction false} RolesAreSet(functionRoles: map<string, RoleId>, selectors: seq<string>, role: RoleId, s: string)
    ensures var after := WithRoles(functionRoles, selectors, role);
            if s in selectors then s in after && after[s] == role
            else (s in after <==> s in functionRoles) && (s in after ==> after[s] == functionRoles[s])
    decreases selectors
  {
    if |selectors| > 0 {
      RolesAreSet(functionRoles[selectors[0] := role], selectors[1..], role, s);
      assert selectors == [selectors[0]] + selectors[1..];
    }
  }

  // What the last event that sets it says, or nothing: the role a call needs.
  function RoleSetLast(events: seq<Event>, target: string, selector: string): Option<RoleId>
  {
    if |events| == 0 then None
    else
      var op := events[|events| - 1].op;
      if SetsRole(op, target, selector) then Some(op.role) else RoleSetLast(events[..|events| - 1], target, selector)
  }

  // Whether the last event that opens or closes a target closes it.
  predicate ClosedLast(events: seq<Event>, target: string)
  {
    |events| > 0 &&
    var op := events[|events| - 1].op;
    if SetsClosed(op, target) then op.closed else ClosedLast(events[..|events| - 1], target)
  }

  lemma {:induction false} RunSnoc(m: Manager, events: seq<Event>)
    requires |events| > 0
    ensures Run(m, events) == After(Run(m, events[..|events| - 1]), events[|events| - 1])
    decreases events
  {
    hide Step;
    if |events| > 1 {
      RunSnoc(After(m, events[0]), events[1..]);
      assert events[1..][..|events| - 2] == events[..|events| - 1][1..];
    } else {
      assert events[1..] == [] && events[..0] == [];
    }
  }

  // The target of a run: closed as set last, and the role of each selector as set last.
  ghost predicate TargetIs(m: Manager, events: seq<Event>, target: string, selector: string)
  {
    var roles := if target in m.targets then m.targets[target].functionRoles else map[];
    && ((target in m.targets && m.targets[target].closed) <==> ClosedLast(events, target))
    && (match RoleSetLast(events, target, selector)
        case Some(role) => selector in roles && roles[selector] == role
        case None => selector !in roles)
  }

  lemma StepTarget(m: Manager, e: Event, before: seq<Event>, target: string, selector: string)
    requires TargetIs(m, before, target, selector)
    ensures TargetIs(After(m, e), before + [e], target, selector)
  {
    var events := before + [e];
    assert events[..|events| - 1] == before;
    if e.op.SetTargetFunctionRoles? {
      RolesAreSet(m.TargetOf(e.op.target).functionRoles, e.op.selectors, e.op.role, selector);
    }
  }

  lemma {:induction false} TargetOfRun(events: seq<Event>, target: string, selector: string)
    ensures TargetIs(Run(EMPTY, events), events, target, selector)
  {
    hide Step;
    if |events| > 0 {
      var before := events[..|events| - 1];
      TargetOfRun(before, target, selector);
      StepTarget(Run(EMPTY, before), events[|events| - 1], before, target, selector);
      RunSnoc(EMPTY, events);
      assert before + [events[|events| - 1]] == events;
    }
  }

  // After every run from the start: a call is allowed exactly if the target was not closed last and the
  // caller has the role that was set last for the selector, which is the admin role if none was.
  lemma CallsAllowed(events: seq<Event>, caller: Address, target: string, selector: string, now: TimePoint)
    ensures Run(EMPTY, events).CanCall(caller, target, selector, now)
       <==> !ClosedLast(events, target)
            && Run(EMPTY, events).HasRole(match RoleSetLast(events, target, selector)
                                          case Some(role) => role
                                          case None => 0, caller, now)
  {
    hide Step, Run, ClosedLast, RoleSetLast;
    TargetOfRun(events, target, selector);
  }

  // In terms of single events: without any setting for a selector only admins may call.
  lemma UnsetNeedsAdmin(events: seq<Event>, caller: Address, target: string, selector: string, now: TimePoint)
    requires Without(events, (op: Op) => SetsRole(op, target, selector))
    ensures Run(EMPTY, events).CanCall(caller, target, selector, now)
       <==> !ClosedLast(events, target) && Run(EMPTY, events).HasRole(ADMIN_ROLE, caller, now)
  {
    hide Step, Run, ClosedLast;
    CallsAllowed(events, caller, target, selector, now);
    NoneSet(events, target, selector);
  }

  lemma {:induction false} NoneSet(events: seq<Event>, target: string, selector: string)
    requires Without(events, (op: Op) => SetsRole(op, target, selector))
    ensures RoleSetLast(events, target, selector) == None
  {
    if |events| > 0 { NoneSet(events[..|events| - 1], target, selector); }
  }

  // After a setting, and until the next, the holders of that role may call.
  lemma SetNeedsRole(before: seq<Event>, e: Event, events: seq<Event>, caller: Address, target: string, selector: string,
                     now: TimePoint)
    requires SetsRole(e.op, target, selector) && Without(events, (op: Op) => SetsRole(op, target, selector))
    ensures var all := before + [e] + events;
            (Run(EMPTY, all).CanCall(caller, target, selector, now)
             <==> !ClosedLast(all, target) && Run(EMPTY, all).HasRole(e.op.role, caller, now))
  {
    hide Step, Run, ClosedLast;
    CallsAllowed(before + [e] + events, caller, target, selector, now);
    SetBefore(before, e, events, target, selector);
  }

  lemma {:induction false} SetBefore(before: seq<Event>, e: Event, events: seq<Event>, target: string, selector: string)
    requires SetsRole(e.op, target, selector) && Without(events, (op: Op) => SetsRole(op, target, selector))
    ensures RoleSetLast(before + [e] + events, target, selector) == Some(e.op.role)
  {
    var all := before + [e] + events;
    if |events| > 0 {
      assert all[..|all| - 1] == before + [e] + events[..|events| - 1];
      SetBefore(before, e, events[..|events| - 1], target, selector);
    } else {
      assert all == before + [e];
    }
  }

  // A target is open until it is closed, and as set last from then on.
  lemma {:induction false} ClosedAsSet(before: seq<Event>, e: Event, events: seq<Event>, target: string)
    requires SetsClosed(e.op, target) && Without(events, (op: Op) => SetsClosed(op, target))
    ensures ClosedLast(before + [e] + events, target) == e.op.closed && !ClosedLast(events, target)
  {
    var all := before + [e] + events;
    if |events| > 0 {
      assert all[..|all| - 1] == before + [e] + events[..|events| - 1];
      ClosedAsSet(before, e, events[..|events| - 1], target);
    } else {
      assert all == before + [e];
    }
  }
}
