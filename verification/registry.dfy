/**
 * The `admins` table: one row per registered Discord user, holding the
 * user's Reforger id and the role under which the user registered.
 *
 * The table is modelled as a map keyed by Discord id. `/addmyid` upserts the
 * caller's row; the periodic cleanup pass deletes the rows of guild members
 * who no longer hold the required role.
 */
module AdminRegistry {
  import opened Responses
  import opened OnlineAdmins

  /** A Discord role id. */
  type RoleId = int

  /**
   * One row of the table. The `role_id` column holds the decimal text of the
   * required role id; here it holds the number itself.
   */
  datatype AdminRecord = AdminRecord(reforgerId: ReforgerId, roleId: RoleId)

  /** Which of its three replies `/addmyid` gives. */
  datatype AddOutcome = PermissionDenied | Updated | Registered

  predicate HasRole(roles: seq<RoleId>, role: RoleId) {
    role in roles
  }

  /**
   * The table after `/addmyid`: a caller without the required role changes
   * nothing; otherwise the caller's row afterwards carries `reforgerId`,
   * an existing row keeps its role id, a new row gets the required role,
   * and no other row changes.
   */
  function Upsert(rows: map<UserId, AdminRecord>, callerId: UserId, callerRoles: seq<RoleId>,
                  reforgerId: ReforgerId, requiredRole: RoleId): (r: map<UserId, AdminRecord>)
    ensures !HasRole(callerRoles, requiredRole) ==> r == rows
    ensures HasRole(callerRoles, requiredRole) ==> r.Keys == rows.Keys + {callerId}
    ensures HasRole(callerRoles, requiredRole) ==> r[callerId].reforgerId == reforgerId
    ensures HasRole(callerRoles, requiredRole) && callerId in rows ==> r[callerId].roleId == rows[callerId].roleId
    ensures HasRole(callerRoles, requiredRole) && callerId !in rows ==> r[callerId].roleId == requiredRole
    ensures forall d :: d in rows && d != callerId ==> d in r && r[d] == rows[d]
  {
    if !HasRole(callerRoles, requiredRole) then rows
    else if callerId in rows then rows[callerId := rows[callerId].(reforgerId := reforgerId)]
    else rows[callerId := AdminRecord(reforgerId, requiredRole)]
  }

  /** A guild member was found for `d` and does not hold the required role. */
  predicate LostRole(d: UserId, members: map<UserId, seq<RoleId>>, requiredRole: RoleId) {
    d in members && !HasRole(members[d], requiredRole)
  }

  /**
   * The table after one cleanup pass: exactly the rows whose member was found
   * and lacks the required role are gone; rows of members that were not found
   * and of members that hold the role are kept unchanged.
   */
  function Cleaned(rows: map<UserId, AdminRecord>, members: map<UserId, seq<RoleId>>,
                   requiredRole: RoleId): (r: map<UserId, AdminRecord>)
    ensures forall d :: d in r <==> d in rows && !LostRole(d, members, requiredRole)
    ensures forall d :: d in r ==> r[d] == rows[d]
  {
    map d | d in rows && !LostRole(d, members, requiredRole) :: rows[d]
  }

  /** Registering the same id twice in a row leaves the table as registering it once. */
  lemma UpsertIdempotent(rows: map<UserId, AdminRecord>, callerId: UserId, callerRoles: seq<RoleId>,
                         reforgerId: ReforgerId, requiredRole: RoleId)
    ensures var once := Upsert(rows, callerId, callerRoles, reforgerId, requiredRole);
            Upsert(once, callerId, callerRoles, reforgerId, requiredRole) == once
  {
  }

  /** A second cleanup pass against the same membership removes nothing more. */
  lemma CleanupIdempotent(rows: map<UserId, AdminRecord>, members: map<UserId, seq<RoleId>>, requiredRole: RoleId)
    ensures Cleaned(Cleaned(rows, members, requiredRole), members, requiredRole) == Cleaned(rows, members, requiredRole)
  {
  }

  /**
   * A row written by an authorized `/addmyid` survives cleanup, with the
   * Reforger id it was given, as long as the member still holds the role or
   * is not found in the guild.
   */
  lemma RegisteredAdminSurvivesCleanup(rows: map<UserId, AdminRecord>, callerId: UserId, callerRoles: seq<RoleId>,
                                       reforgerId: ReforgerId, requiredRole: RoleId,
                                       members: map<UserId, seq<RoleId>>)
    requires HasRole(callerRoles, requiredRole)
    requires !LostRole(callerId, members, requiredRole)
    ensures var after := Cleaned(Upsert(rows, callerId, callerRoles, reforgerId, requiredRole), members, requiredRole);
            callerId in after && after[callerId].reforgerId == reforgerId
  {
  }

  /** The snapshot `admins` lists exactly the (Discord id, Reforger id) pairs of `rows`. */
  ghost predicate IsSnapshot(rows: map<UserId, AdminRecord>, admins: seq<(UserId, ReforgerId)>) {
    && (forall i :: 0 <= i < |admins| ==> admins[i].0 in rows && rows[admins[i].0].reforgerId == admins[i].1)
    && (forall d :: d in rows ==> exists i :: 0 <= i < |admins| && admins[i] == (d, rows[d].reforgerId))
  }

  /** Every admin reported present has a row in the table the snapshot was taken from. */
  lemma PresenceOnlyRegisteredAdmins(rows: map<UserId, AdminRecord>, admins: seq<(UserId, ReforgerId)>,
                                     rs: seq<ServerResponse>)
    requires IsSnapshot(rows, admins)
    ensures Presence(admins, rs).Keys <= rows.Keys
  {
    forall d | d in Presence(admins, rs) ensures d in rows {
      PresenceOnlyFromSnapshot(admins, rs, d);
    }
  }

  class Registry {
    /** The role that authorizes registration (REQUIRED_ROLE_ID). */
    const requiredRole: RoleId
    var rows: map<UserId, AdminRecord>

    constructor (requiredRole: RoleId, rows: map<UserId, AdminRecord>)
      ensures this.requiredRole == requiredRole && this.rows == rows
    {
      this.requiredRole := requiredRole;
      this.rows := rows;
    }

    /**
     * add_my_id: check the caller's roles, then look the caller up and
     * either update the Reforger id of the existing row or insert a new row
     * under the required role.
     */
    method AddMyId(callerId: UserId, callerRoles: seq<RoleId>, reforgerId: ReforgerId) returns (outcome: AddOutcome)
      modifies this
      ensures rows == Upsert(old(rows), callerId, callerRoles, reforgerId, requiredRole)
      ensures outcome == PermissionDenied <==> !HasRole(callerRoles, requiredRole)
      ensures outcome == Updated <==> HasRole(callerRoles, requiredRole) && callerId in old(rows)
      ensures outcome == Registered <==> HasRole(callerRoles, requiredRole) && callerId !in old(rows)
    {
      if requiredRole !in callerRoles {
        return PermissionDenied;
      }
      if callerId in rows {
        rows := rows[callerId := rows[callerId].(reforgerId := reforgerId)];
        outcome := Updated;
      } else {
        rows := rows[callerId := AdminRecord(reforgerId, requiredRole)];
        outcome := Registered;
      }
    }

    /**
     * One pass of cleanup_removed_admins: take the list of registered ids,
     * then for each one whose member is found in the guild without the
     * required role, delete that row.
     */
    method CleanupRemovedAdmins(members: map<UserId, seq<RoleId>>)
      modifies this
      ensures rows == Cleaned(old(rows), members, requiredRole)
    {
      var registered := rows.Keys;
      var pending := registered;
      while pending != {}
        invariant pending <= registered == old(rows).Keys
        invariant forall d :: d in rows <==>
          d in old(rows) && !(d !in pending && LostRole(d, members, requiredRole))
        invariant forall d :: d in rows ==> rows[d] == old(rows)[d]
        decreases pending
      {
        var discordId :| discordId in pending;
        if discordId in members {
          var hasRole := requiredRole in members[discordId];
          if !hasRole {
            rows := rows - {discordId};
          }
        }
        pending := pending - {discordId};
      }
      assert rows.Keys == Cleaned(old(rows), members, requiredRole).Keys;
    }
  }
}
