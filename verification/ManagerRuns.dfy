// What every run of the access manager keeps.
module ManagerRuns {
  import opened Bytes
  import opened Delays
  import opened Manager

  datatype Event = Event(now: TimePoint, op: Op)

  // A refused operation changes nothing.
  function After(m: Manager, e: Event): Manager
  {
    var r := Step(m, e.now, e.op);
    if r.Ok? then r.value.0 else m
  }

  function Run(m: Manager, events: seq<Event>): Manager
    decreases events
  {
    if |events| == 0 then m else Run(After(m, events[0]), events[1..])
  }

  // The clock never goes back.
  predicate Clocked(start: TimePoint, events: seq<Event>, end: TimePoint)
    decreases events
  {
    if |events| == 0 then start <= end
    else start <= events[0].now && Clocked(events[0].now, events[1..], end)
  }

  lemma {:induction false} ClockedOrder(start: TimePoint, events: seq<Event>, end: TimePoint)
    requires Clocked(start, events, end)
    ensures start <= end
    decreases events
  {
    if |events| > 0 {
      ClockedOrder(events[0].now, events[1..], end);
    }
  }

  // ---- delays ----

  // The earliest instant at which a grant not yet made could become active.
  function Earliest(m: Manager, role: RoleId, now: TimePoint): int
  {
    m.RoleOf(role).grantDelay.Earliest(now)
  }

  lemma StepKeepsEarliest(m: Manager, e: Event, role: RoleId)
    requires e.now <= MAX_CLOCK
    ensures Earliest(m, role, e.now) <= Earliest(After(m, e), role, e.now)
  {
    if e.op.SetGrantDelay? {
      UpdateKeepsEarliest(m.RoleOf(e.op.role).grantDelay, e.now, e.op.newDelay, MIN_SETBACK);
    }
  }

  // Whatever is granted, revoked and rescheduled, that instant never moves earlier.
  lemma {:induction false} EarliestNeverMovesBack(m: Manager, start: TimePoint, events: seq<Event>, end: TimePoint,
                                                  role: RoleId)
    requires Clocked(start, events, end) && end <= MAX_CLOCK
    ensures Earliest(m, role, start) <= Earliest(Run(m, events), role, end)
    decreases events
  {
    hide Step, Delay.Earliest;
    if |events| == 0 {
      EarliestMonotone(m.RoleOf(role).grantDelay, start, end);
    } else {
      var e := events[0];
      ClockedOrder(e.now, events[1..], end);
      EarliestMonotone(m.RoleOf(role).grantDelay, start, e.now);
      StepKeepsEarliest(m, e, role);
      EarliestNeverMovesBack(After(m, e), e.now, events[1..], end, role);
    }
  }

  // An account that has no membership starting before a given instant.
  predicate NotBefore(m: Manager, role: RoleId, account: Address, instant: int)
  {
    var members := m.RoleOf(role).members;
    account in members ==> members[account].since == 0 || members[account].since >= instant
  }

  lemma StepKeepsNotBefore(m: Manager, e: Event, role: RoleId, account: Address, instant: int)
    requires e.now <= MAX_CLOCK && NotBefore(m, role, account, instant) && instant <= Earliest(m, role, e.now)
    ensures NotBefore(After(m, e), role, account, instant)
  {
    if e.op.Grant? && e.op.role == role && e.op.account == account {
      EarliestIsReached(m.RoleOf(role).grantDelay, e.now);
    }
  }

  lemma {:induction false} RunKeepsNotBefore(m: Manager, start: TimePoint, events: seq<Event>, end: TimePoint,
                                             role: RoleId, account: Address, instant: int)
    requires Clocked(start, events, end) && end <= MAX_CLOCK
    requires NotBefore(m, role, account, instant) && instant <= Earliest(m, role, start)
    ensures NotBefore(Run(m, events), role, account, instant)
    decreases events
  {
    hide Step, Delay.Earliest, NotBefore;
    if |events| > 0 {
      var e := events[0];
      ClockedOrder(e.now, events[1..], end);
      EarliestMonotone(m.RoleOf(role).grantDelay, start, e.now);
      StepKeepsEarliest(m, e, role);
      StepKeepsNotBefore(m, e, role, account, instant);
      RunKeepsNotBefore(After(m, e), e.now, events[1..], end, role, account, instant);
    }
  }

  // Who is not a member cannot be one before the earliest instant, whatever is done meanwhile.
  lemma GrantsWait(m: Manager, start: TimePoint, events: seq<Event>, end: TimePoint, role: RoleId, account: Address)
    requires Clocked(start, events, end) && end <= MAX_CLOCK
    requires account !in m.RoleOf(role).members && role != PUBLIC_ROLE
    requires Run(m, events).HasRole(role, account, end)
    ensures Earliest(m, role, start) <= end
  {
    hide Run, Step, Delay.Earliest;
    RunKeepsNotBefore(m, start, events, end, role, account, Earliest(m, role, start));
  }

  // Lowering a delay does not help: whoever is not a member when the change is requested waits at
  // least the delay that was in force then.
  lemma ChangeWaits(m: Manager, now: TimePoint, role: RoleId, newDelay: Seconds, events: seq<Event>, end: TimePoint,
                    account: Address)
    requires Clocked(now, events, end) && end <= MAX_CLOCK
    requires account !in m.RoleOf(role).members && role != PUBLIC_ROLE
    requires Run(After(m, Event(now, SetGrantDelay(role, newDelay))), events).HasRole(role, account, end)
    ensures now + m.RoleOf(role).grantDelay.Get(now) <= end
  {
    hide Run;
    ClockedOrder(now, events, end);
    UpdateKeepsEarliest(m.RoleOf(role).grantDelay, now, newDelay, MIN_SETBACK);
    GrantsWait(After(m, Event(now, SetGrantDelay(role, newDelay))), now, events, end, role, account);
  }

  // Nor can a stranger to a role make a call that needs it any earlier.
  lemma CallsWait(m: Manager, start: TimePoint, events: seq<Event>, end: TimePoint, caller: Address,
                  target: string, selector: string)
    requires Clocked(start, events, end) && end <= MAX_CLOCK
    requires Run(m, events).CanCall(caller, target, selector, end)
    ensures var role := Run(m, events).FunctionRole(target, selector);
            role == PUBLIC_ROLE || caller in m.RoleOf(role).members || Earliest(m, role, start) <= end
  {
    hide Run, Step, Delay.Earliest;
    var role := Run(m, events).FunctionRole(target, selector);
    if role != PUBLIC_ROLE && caller !in m.RoleOf(role).members {
      GrantsWait(m, start, events, end, role, caller);
    }
  }

  // Only a sum past the end of the clock, which wraps around, makes a grant start before the present.
  lemma OverflowActivates(now: TimePoint, delay: Seconds)
    requires now != 0
    ensures NewAccessWithDelay(now, delay).since < now + delay <==> now + delay > MAX_INT
    ensures now + delay > MAX_INT ==> NewAccessWithDelay(now, delay).IsActiveAt(now)
  {
  }

  // ---- the last admin ----

  ghost predicate HasAdmin(m: Manager, now: TimePoint)
  {
    exists account :: m.HasRole(ADMIN_ROLE, account, now)
  }

  lemma StepKeepsAdmin(m: Manager, e: Event)
    requires HasAdmin(m, e.now)
    ensures HasAdmin(After(m, e), e.now)
  {
    var admin :| m.HasRole(ADMIN_ROLE, admin, e.now);
    if e.op.Revoke? || e.op.Renounce? {
      var account := e.op.account;
      if account == admin && !m.IsLastAdmin(account, e.now) {
        var other :| other in m.RoleOf(ADMIN_ROLE).members && other != account && m.HasRole(ADMIN_ROLE, other, e.now);
        assert After(m, e).HasRole(ADMIN_ROLE, other, e.now);
      } else {
        assert After(m, e).HasRole(ADMIN_ROLE, admin, e.now);
      }
    } else {
      assert After(m, e).HasRole(ADMIN_ROLE, admin, e.now);
    }
  }

  lemma AdminStays(m: Manager, now: TimePoint, later: TimePoint)
    requires HasAdmin(m, now) && now <= later
    ensures HasAdmin(m, later)
  {
    var admin :| m.HasRole(ADMIN_ROLE, admin, now);
    assert m.HasRole(ADMIN_ROLE, admin, later);
  }

  // Once there is an active admin, there is one ever after.
  lemma {:induction false} AlwaysAnAdmin(m: Manager, start: TimePoint, events: seq<Event>, end: TimePoint)
    requires Clocked(start, events, end) && HasAdmin(m, start)
    ensures HasAdmin(Run(m, events), end)
    decreases events
  {
    hide Step, HasAdmin;
    if |events| == 0 {
      AdminStays(m, start, end);
    } else {
      var e := events[0];
      AdminStays(m, start, e.now);
      StepKeepsAdmin(m, e);
      AlwaysAnAdmin(After(m, e), e.now, events[1..], end);
    }
  }

  // An admin whose access has not started can always be revoked.
  lemma PendingAdminRevocable(m: Manager, now: TimePoint, account: Address)
    requires account in m.RoleOf(ADMIN_ROLE).members && !m.HasRole(ADMIN_ROLE, account, now)
    ensures Step(m, now, Revoke(ADMIN_ROLE, account)).Ok?
    ensures account !in After(m, Event(now, Revoke(ADMIN_ROLE, account))).RoleOf(ADMIN_ROLE).members
  {
  }

  // ---- locked roles ----

  // The public role is never configured, and the admin role stays its own admin.
  predicate Locked(m: Manager)
  {
    PUBLIC_ROLE !in m.roles && m.RoleOf(ADMIN_ROLE).admin == ADMIN_ROLE
  }

  lemma {:induction false} LockedStays(m: Manager, events: seq<Event>)
    requires Locked(m)
    ensures Locked(Run(m, events))
    decreases events
  {
    if |events| > 0 {
      LockedStays(After(m, events[0]), events[1..]);
    }
  }
}
