/**
 What happens when a member leaves an organization: the member's agents are revoked,
 their live sessions ended, the member's grants deleted, and each of these recorded.
 */
module Cascade {
  import opened Basics

  datatype AgentRow = AgentRow(organizationId: string, createdBy: Option<string>, enabled: bool, revokedAt: Option<int>)

  datatype SessionRow = SessionRow(agentId: string, expiresAt: int, revokedAt: Option<int>)

  datatype PermissionRow = PermissionRow(
    organizationId: string, agentId: string, itemId: Option<string>, profileId: Option<string>,
    capability: string, grantedBy: Option<string>)

  datatype AuditMeta =
    | AgentRevoked(removedUserId: string)
    | GrantDeleted(permissionId: string, capability: string, removedUserId: string)

  datatype AuditRow = AuditRow(organizationId: string, userId: string, agentId: string, itemId: Option<string>,
                               meta: AuditMeta, ipAddress: Option<string>)

  datatype Tables = Tables(
    agents: map<string, AgentRow>, sessions: map<string, SessionRow>,
    permissions: map<string, PermissionRow>, auditLogs: multiset<AuditRow>)

  /** One call: whose membership ended where, by whom, and when. */
  datatype Removal = Removal(orgId: string, removedUserId: string, removedBy: string, ipAddress: Option<string>,
                             now: int)

  // ---- the transaction, as a change of tables ---------------------------------------

  function MemberAgents(agents: map<string, AgentRow>, r: Removal): set<string> {
    set id | id in agents && agents[id].organizationId == r.orgId
             && agents[id].createdBy == Some(r.removedUserId) && agents[id].enabled
  }

  function ActiveSessions(sessions: map<string, SessionRow>, agentIds: set<string>, now: int): set<string> {
    set id | id in sessions && sessions[id].agentId in agentIds && sessions[id].revokedAt.None?
             && sessions[id].expiresAt > now
  }

  function RemovedGrants(permissions: map<string, PermissionRow>, r: Removal): set<string> {
    set id | id in permissions && permissions[id].organizationId == r.orgId
             && permissions[id].grantedBy == Some(r.removedUserId)
  }

  function AgentAudit(r: Removal, id: string): AuditRow {
    AuditRow(r.orgId, r.removedBy, id, None, AgentRevoked(r.removedUserId), r.ipAddress)
  }

  function GrantAudit(r: Removal, id: string, p: PermissionRow): AuditRow {
    AuditRow(r.orgId, r.removedBy, p.agentId, p.itemId, GrantDeleted(id, p.capability, r.removedUserId), r.ipAddress)
  }

  function AgentAudits(r: Removal, ids: set<string>): set<AuditRow> {
    set id | id in ids :: AgentAudit(r, id)
  }

  function GrantAudits(r: Removal, permissions: map<string, PermissionRow>, ids: set<string>): set<AuditRow> {
    set id | id in ids && id in permissions :: GrantAudit(r, id, permissions[id])
  }

  function RevokeAgents(agents: map<string, AgentRow>, ids: set<string>, now: int): map<string, AgentRow> {
    map id | id in agents :: if id in ids then agents[id].(enabled := false, revokedAt := Some(now)) else agents[id]
  }

  function RevokeSessions(sessions: map<string, SessionRow>, ids: set<string>, now: int): map<string, SessionRow> {
    map id | id in sessions :: if id in ids then sessions[id].(revokedAt := Some(now)) else sessions[id]
  }

  function AfterRemoval(t: Tables, r: Removal): Tables {
    var agentIds, grants := MemberAgents(t.agents, r), RemovedGrants(t.permissions, r);
    Tables(RevokeAgents(t.agents, agentIds, r.now),
           RevokeSessions(t.sessions, ActiveSessions(t.sessions, agentIds, r.now), r.now),
           t.permissions - grants,
           t.auditLogs + multiset(AgentAudits(r, agentIds)) + multiset(GrantAudits(r, t.permissions, grants)))
  }

  class Database {
    var agents: map<string, AgentRow>
    var agentSessions: map<string, SessionRow>
    var permissions: map<string, PermissionRow>
    var auditLogs: multiset<AuditRow>

    ghost function State(): Tables
      reads this
    {
      Tables(agents, agentSessions, permissions, auditLogs)
    }

    constructor (t: Tables)
      ensures State() == t
    {
      agents, agentSessions, permissions, auditLogs := t.agents, t.sessions, t.permissions, t.auditLogs;
    }

    /** `onMemberRemoved`, statement by statement. */
    method OnMemberRemoved(r: Removal)
      modifies this
      ensures State() == AfterRemoval(old(State()), r)
    {
      hide MemberAgents, ActiveSessions, RemovedGrants, RevokeAgents, RevokeSessions, AgentAudits, GrantAudits;
      var memberAgents := MemberAgents(agents, r);
      NothingToRevoke(State(), r);
      if memberAgents != {} {
        agents := RevokeAgents(agents, memberAgents, r.now);
        var activeSessions := ActiveSessions(agentSessions, memberAgents, r.now);
        if activeSessions != {} {
          agentSessions := RevokeSessions(agentSessions, activeSessions, r.now);
        }
        auditLogs := auditLogs + multiset(AgentAudits(r, memberAgents));
      }
      var removedGrants := RemovedGrants(permissions, r);
      if removedGrants != {} {
        auditLogs := auditLogs + multiset(GrantAudits(r, permissions, removedGrants));
        permissions := permissions - removedGrants;
      }
    }
  }

  lemma NothingToRevoke(t: Tables, r: Removal)
    ensures RevokeAgents(t.agents, {}, r.now) == t.agents
    ensures RevokeSessions(t.sessions, {}, r.now) == t.sessions
    ensures ActiveSessions(t.sessions, {}, r.now) == {}
    ensures t.permissions - {} == t.permissions
    ensures AgentAudits(r, {}) == {} && GrantAudits(r, t.permissions, {}) == {}
  {}

  // ---- what it achieves and what it leaves alone ----------------------------------------

  ghost predicate MemberAgent(a: AgentRow, r: Removal) {
    a.organizationId == r.orgId && a.createdBy == Some(r.removedUserId) && a.enabled
  }

  ghost predicate MemberGrant(p: PermissionRow, r: Removal) {
    p.organizationId == r.orgId && p.grantedBy == Some(r.removedUserId)
  }

  /** Afterwards the member has no enabled agent and no grant in the organization. Each
      table row is either one of the member's, changed as described, or unchanged; no row
      but the member's grants disappears. A session that was revoked keeps its time. */
  lemma RemovalExact(t: Tables, r: Removal)
    ensures var u := AfterRemoval(t, r);
            (forall id :: id in u.agents ==> !MemberAgent(u.agents[id], r))
            && (forall id :: id in u.permissions ==> !MemberGrant(u.permissions[id], r))
    ensures var u := AfterRemoval(t, r);
            u.agents.Keys == t.agents.Keys && u.sessions.Keys == t.sessions.Keys
            && (forall id :: id in t.agents ==>
                  u.agents[id] ==
                    if MemberAgent(t.agents[id], r) then t.agents[id].(enabled := false, revokedAt := Some(r.now))
                    else t.agents[id])
            && (forall id :: id in t.permissions ==> (id in u.permissions <==> !MemberGrant(t.permissions[id], r)))
            && (forall id :: id in u.permissions ==> id in t.permissions && u.permissions[id] == t.permissions[id])
    ensures var u := AfterRemoval(t, r);
            forall id :: id in t.sessions ==>
              var s := t.sessions[id];
              u.sessions[id] ==
                if s.revokedAt.None? && s.expiresAt > r.now && s.agentId in t.agents
                   && MemberAgent(t.agents[s.agentId], r)
                then s.(revokedAt := Some(r.now)) else s
  {}

  lemma {:induction false} AgentAuditCount(r: Removal, ids: set<string>)
    ensures |AgentAudits(r, ids)| == |ids|
    decreases ids
  {
    if ids == {} {
      assert AgentAudits(r, ids) == {};
    } else {
      var id :| id in ids;
      AgentAuditCount(r, ids - {id});
      assert AgentAudits(r, ids) == AgentAudits(r, ids - {id}) + {AgentAudit(r, id)};
    }
  }

  lemma {:induction false} GrantAuditCount(r: Removal, permissions: map<string, PermissionRow>, ids: set<string>)
    requires ids <= permissions.Keys
    ensures |GrantAudits(r, permissions, ids)| == |ids|
    decreases ids
  {
    if ids == {} {
      assert GrantAudits(r, permissions, ids) == {};
    } else {
      var id :| id in ids;
      GrantAuditCount(r, permissions, ids - {id});
      assert GrantAudits(r, permissions, ids)
          == GrantAudits(r, permissions, ids - {id}) + {GrantAudit(r, id, permissions[id])};
    }
  }

  /** Nothing is lost from the audit log, and exactly one row is added for each revoked
      agent and one for each deleted grant. */
  lemma AuditConserved(t: Tables, r: Removal)
    ensures var u := AfterRemoval(t, r);
            t.auditLogs <= u.auditLogs
            && |u.auditLogs| == |t.auditLogs| + |MemberAgents(t.agents, r)| + |RemovedGrants(t.permissions, r)|
    ensures var added := AfterRemoval(t, r).auditLogs - t.auditLogs;
            (forall id :: id in t.agents && MemberAgent(t.agents[id], r) ==> added[AgentAudit(r, id)] == 1)
            && (forall id :: id in t.permissions && MemberGrant(t.permissions[id], r)
                  ==> added[GrantAudit(r, id, t.permissions[id])] == 1)
  {
    var agentIds, grants := MemberAgents(t.agents, r), RemovedGrants(t.permissions, r);
    AgentAuditCount(r, agentIds);
    GrantAuditCount(r, t.permissions, grants);
    var a, g := AgentAudits(r, agentIds), GrantAudits(r, t.permissions, grants);
    assert AfterRemoval(t, r).auditLogs - t.auditLogs == multiset(a) + multiset(g);
    forall id | id in t.agents && MemberAgent(t.agents[id], r)
      ensures (multiset(a) + multiset(g))[AgentAudit(r, id)] == 1
    {
      assert AgentAudit(r, id) in a && AgentAudit(r, id) !in g;
    }
    forall id | id in t.permissions && MemberGrant(t.permissions[id], r)
      ensures (multiset(a) + multiset(g))[GrantAudit(r, id, t.permissions[id])] == 1
    {
      assert GrantAudit(r, id, t.permissions[id]) in g && GrantAudit(r, id, t.permissions[id]) !in a;
    }
  }

  /** What the new audit rows say, field by field: they are of this organization, by whoever
      removed the member and from their address, and name the member removed. One about an
      agent is of an enabled agent of the member, and about no item; one about a grant has
      the agent, the item, the capability and the id of a grant by the member. */
  lemma AuditRowsSay(t: Tables, r: Removal, a: AuditRow)
    requires a in AfterRemoval(t, r).auditLogs - t.auditLogs
    ensures a.organizationId == r.orgId && a.userId == r.removedBy && a.ipAddress == r.ipAddress
            && a.meta.removedUserId == r.removedUserId
    ensures a.meta.AgentRevoked? ==>
              a.itemId == None && a.agentId in t.agents && t.agents[a.agentId].enabled
              && t.agents[a.agentId].organizationId == r.orgId && t.agents[a.agentId].createdBy == Some(r.removedUserId)
    ensures a.meta.GrantDeleted? ==>
              a.meta.permissionId in t.permissions
              && var p := t.permissions[a.meta.permissionId];
                 p.organizationId == r.orgId && p.grantedBy == Some(r.removedUserId)
                 && a.agentId == p.agentId && a.itemId == p.itemId && a.meta.capability == p.capability
  {}

  /** And each agent and each grant has such a row. */
  lemma EveryChangeAudited(t: Tables, r: Removal, id: string)
    ensures id in t.agents && MemberAgent(t.agents[id], r) ==>
              AuditRow(r.orgId, r.removedBy, id, None, AgentRevoked(r.removedUserId), r.ipAddress)
              in AfterRemoval(t, r).auditLogs - t.auditLogs
    ensures id in t.permissions && MemberGrant(t.permissions[id], r) ==>
              AuditRow(r.orgId, r.removedBy, t.permissions[id].agentId, t.permissions[id].itemId,
                       GrantDeleted(id, t.permissions[id].capability, r.removedUserId), r.ipAddress)
              in AfterRemoval(t, r).auditLogs - t.auditLogs
  {
    AuditConserved(t, r);
  }

  /** Removing the same member again, at any time, by anyone, changes nothing. */
  lemma Idempotent(t: Tables, r: Removal, again: Removal)
    requires again.orgId == r.orgId && again.removedUserId == r.removedUserId
    ensures AfterRemoval(AfterRemoval(t, r), again) == AfterRemoval(t, r)
  {
    var u := AfterRemoval(t, r);
    RemovalExact(t, r);
    assert MemberAgents(u.agents, again) == {} by {
      forall id | id in u.agents
        ensures id !in MemberAgents(u.agents, again)
      {
        assert !MemberAgent(u.agents[id], r);
      }
    }
    assert RemovedGrants(u.permissions, again) == {} by {
      forall id | id in u.permissions
        ensures id !in RemovedGrants(u.permissions, again)
      {
        assert !MemberGrant(u.permissions[id], r);
      }
    }
    NothingToRevoke(u, again);
  }

  // ---- runs of removals --------------------------------------------------------------------

  ghost predicate Live(s: SessionRow, now: int) {
    s.revokedAt.None? && s.expiresAt > now
  }

  /** A disabled agent has no live session. */
  ghost predicate DisabledAreOut(t: Tables, now: int) {
    forall id :: id in t.sessions && t.sessions[id].agentId in t.agents && !t.agents[t.sessions[id].agentId].enabled
             ==> !Live(t.sessions[id], now)
  }

  function AfterAll(t: Tables, rs: seq<Removal>): Tables {
    if rs == [] then t else AfterRemoval(AfterAll(t, rs[..|rs| - 1]), rs[|rs| - 1])
  }

  /** With a clock that does not go back, any run of removals keeps disabled agents
      without live sessions, from the last removal on. */
  lemma {:induction false} DisabledStayOut(t: Tables, rs: seq<Removal>, start: int, now: int)
    requires DisabledAreOut(t, start)
    requires forall i :: 0 <= i < |rs| ==> start <= rs[i].now <= now
    requires forall i, j :: 0 <= i < j < |rs| ==> rs[i].now <= rs[j].now
    requires start <= now
    ensures DisabledAreOut(AfterAll(t, rs), now)
    decreases |rs|
  {
    if rs != [] {
      var n := |rs| - 1;
      DisabledStayOut(t, rs[..n], start, rs[n].now);
      RemovalExact(AfterAll(t, rs[..n]), rs[n]);
    }
  }

  /** A session of a revoked agent that the removal leaves alone: it has already expired. */
  ghost predicate LeftAlone(t: Tables, r: Removal, s: SessionRow) {
    s.agentId in t.agents && MemberAgent(t.agents[s.agentId], r) && s.revokedAt.None? && s.expiresAt <= r.now
  }

  /** Whatever the clock says: after a removal disabled agents are out at `now` exactly when
      they were before and the sessions the removal left alone are expired at `now` too. So
      a clock that goes back can break it. */
  lemma DisabledOutIff(t: Tables, r: Removal, now: int)
    ensures DisabledAreOut(AfterRemoval(t, r), now)
       <==> DisabledAreOut(t, now)
            && forall id :: id in t.sessions && LeftAlone(t, r, t.sessions[id]) ==> t.sessions[id].expiresAt <= now
  {
    hide AfterRemoval;
    RemovalExact(t, r);
    var u := AfterRemoval(t, r);
    forall id | id in t.sessions && t.sessions[id].agentId in t.agents
      ensures (u.agents[u.sessions[id].agentId].enabled || !Live(u.sessions[id], now))
         <==> (t.agents[t.sessions[id].agentId].enabled || !Live(t.sessions[id], now))
              && (LeftAlone(t, r, t.sessions[id]) ==> t.sessions[id].expiresAt <= now)
    {}
  }

  /** Such a clock: a session that had expired when its agent was revoked is live again at
      an earlier time. */
  lemma ClockMustNotGoBack()
    ensures var t := Tables(map["a" := AgentRow("o", Some("u"), true, None)], map["s" := SessionRow("a", 100, None)],
                            map[], multiset{});
            var u := AfterRemoval(t, Removal("o", "u", "x", None, 150));
            DisabledAreOut(t, 50) && DisabledAreOut(u, 150) && !DisabledAreOut(u, 50)
  {
    var t := Tables(map["a" := AgentRow("o", Some("u"), true, None)], map["s" := SessionRow("a", 100, None)],
                    map[], multiset{});
    var r := Removal("o", "u", "x", None, 150);
    DisabledOutIff(t, r, 150);
    DisabledOutIff(t, r, 50);
    assert LeftAlone(t, r, t.sessions["s"]);
  }

  /** A later removal never changes when a session was revoked. */
  lemma {:induction false} RevocationTimesStay(t: Tables, rs: seq<Removal>, id: string)
    requires id in t.sessions && t.sessions[id].revokedAt.Some?
    ensures id in AfterAll(t, rs).sessions && AfterAll(t, rs).sessions[id] == t.sessions[id]
    decreases |rs|
  {
    if rs != [] {
      RevocationTimesStay(t, rs[..|rs| - 1], id);
      RemovalExact(AfterAll(t, rs[..|rs| - 1]), rs[|rs| - 1]);
    }
  }
}
