/**
 * Presence reconciliation: which registered admins are playing, and on which
 * server.
 *
 * The registry snapshot is the list of (Discord id, Reforger id) rows; the
 * replies are those of the per-server identifier queries, in the order the
 * servers are configured. A server whose reply is not 200 is skipped; on the
 * others, an admin is present when the server reports the admin's Reforger id
 * as an identifier of type "reforgerUUID". The presence map is built by
 * overwriting, so a later server wins over an earlier one.
 */
module OnlineAdmins {
  import opened Responses

  /** A Discord user id, as the decimal text stored in the registry. */
  type UserId = string
  /** A Reforger UUID, as registered by the admin. */
  type ReforgerId = string

  /** The `type` of an included entry that names a player identifier. */
  const IdentifierKind := "identifier"
  /** The identifier type that denotes a Reforger UUID. */
  const ReforgerUuidType := "reforgerUUID"

  predicate IsIdentifierFor(e: Included, id: string) {
    e.kind == IdentifierKind && e.identifier == id
  }

  /**
   * The identifier -> identifier-type dictionary built from the included
   * entries of one reply. Only entries of kind "identifier" contribute; when
   * several name the same identifier, the last one wins (see
   * IdentifierMapLastWins).
   */
  function IdentifierMap(inc: seq<Included>): (ids: map<string, string>)
    ensures forall id :: id in ids <==> exists j :: 0 <= j < |inc| && IsIdentifierFor(inc[j], id)
  {
    if inc == [] then map[]
    else
      var e := inc[|inc| - 1];
      var rest := IdentifierMap(inc[..|inc| - 1]);
      assert forall j :: 0 <= j < |inc| - 1 ==> inc[..|inc| - 1][j] == inc[j];
      if e.kind == IdentifierKind then rest[e.identifier := e.idType] else rest
  }

  /** The type recorded for an identifier is that of the last "identifier" entry naming it. */
  lemma {:induction false} IdentifierMapLastWins(inc: seq<Included>, id: string, j: nat)
    requires j < |inc| && IsIdentifierFor(inc[j], id)
    requires forall k :: j < k < |inc| ==> !IsIdentifierFor(inc[k], id)
    ensures id in IdentifierMap(inc) && IdentifierMap(inc)[id] == inc[j].idType
  {
    if j < |inc| - 1 {
      var prefix := inc[..|inc| - 1];
      assert forall k :: j < k < |prefix| ==> prefix[k] == inc[k];
      IdentifierMapLastWins(prefix, id, j);
    }
  }

  /** The identifier dictionary of one reply (an absent `included` array gives the empty one). */
  function ServerIdentifiers(r: ServerResponse): map<string, string> {
    IdentifierMap(IncludedOf(r.body))
  }

  /** A Reforger id counts as online when it is reported with type "reforgerUUID". */
  predicate IsOnline(reforgerId: ReforgerId, ids: map<string, string>) {
    reforgerId in ids && ids[reforgerId] == ReforgerUuidType
  }

  /** Some snapshot row for `d` carries a Reforger id that `ids` reports as online. */
  predicate OnlineIn(admins: seq<(UserId, ReforgerId)>, ids: map<string, string>, d: UserId) {
    exists i :: 0 <= i < |admins| && admins[i].0 == d && IsOnline(admins[i].1, ids)
  }

  /** Server `r` answered 200 and reports one of `d`'s Reforger ids as online. */
  predicate Sees(r: ServerResponse, admins: seq<(UserId, ReforgerId)>, d: UserId) {
    Succeeded(r) && OnlineIn(admins, ServerIdentifiers(r), d)
  }

  /**
   * The inner loop over the snapshot for one server: every admin found
   * online is (re)assigned to `serverId`; everyone else keeps the entry
   * the map already had.
   */
  function MatchAdmins(online: map<UserId, ServerId>, admins: seq<(UserId, ReforgerId)>,
                       ids: map<string, string>, serverId: ServerId): (r: map<UserId, ServerId>)
    ensures forall d :: d in r <==> d in online || OnlineIn(admins, ids, d)
    ensures forall d :: OnlineIn(admins, ids, d) ==> r[d] == serverId
    ensures forall d :: d in online && !OnlineIn(admins, ids, d) ==> r[d] == online[d]
  {
    if admins == [] then online
    else
      var prefix := admins[..|admins| - 1];
      var rest := MatchAdmins(online, prefix, ids, serverId);
      var row := admins[|admins| - 1];
      assert forall i :: 0 <= i < |prefix| ==> prefix[i] == admins[i];
      assert forall d :: OnlineIn(admins, ids, d) <==>
        OnlineIn(prefix, ids, d) || (row.0 == d && IsOnline(row.1, ids));
      if IsOnline(row.1, ids) then rest[row.0 := serverId] else rest
  }

  /** One pass of the outer loop: a failed reply changes nothing. */
  function ApplyResponse(online: map<UserId, ServerId>, admins: seq<(UserId, ReforgerId)>,
                         r: ServerResponse): map<UserId, ServerId>
  {
    if r.status != StatusOk then online
    else MatchAdmins(online, admins, ServerIdentifiers(r), r.serverId)
  }

  /**
   * The presence map after processing all replies in order. An admin is in
   * it exactly when some server that answered 200 reports the admin online.
   */
  function Presence(admins: seq<(UserId, ReforgerId)>, rs: seq<ServerResponse>): map<UserId, ServerId>
  {
    if rs == [] then map[]
    else ApplyResponse(Presence(admins, rs[..|rs| - 1]), admins, rs[|rs| - 1])
  }

  /** An admin is present exactly when some server that answered 200 reports the admin online. */
  lemma {:induction false} PresenceMembership(admins: seq<(UserId, ReforgerId)>, rs: seq<ServerResponse>, d: UserId)
    ensures d in Presence(admins, rs) <==> exists j :: 0 <= j < |rs| && Sees(rs[j], admins, d)
  {
    if rs != [] {
      var prefix := rs[..|rs| - 1];
      PresenceMembership(admins, prefix, d);
      assert forall j :: 0 <= j < |prefix| ==> prefix[j] == rs[j];
    }
  }

  /**
   * Last writer wins: an admin's server is the last one, in configuration
   * order, that answered 200 and reports the admin online.
   */
  lemma {:induction false} PresenceLastWins(admins: seq<(UserId, ReforgerId)>, rs: seq<ServerResponse>,
                                            d: UserId, j: nat)
    requires j < |rs| && Sees(rs[j], admins, d)
    requires forall k :: j < k < |rs| ==> !Sees(rs[k], admins, d)
    ensures d in Presence(admins, rs) && Presence(admins, rs)[d] == rs[j].serverId
  {
    var prefix := rs[..|rs| - 1];
    var last := rs[|rs| - 1];
    if j < |rs| - 1 {
      assert forall k :: j < k < |prefix| ==> prefix[k] == rs[k];
      PresenceLastWins(admins, prefix, d, j);
      assert !Sees(last, admins, d);
    }
  }

  /** The index of the last reply that sees `d`, or -1 when none does. */
  ghost function LastSeer(admins: seq<(UserId, ReforgerId)>, rs: seq<ServerResponse>, d: UserId): (j: int)
    ensures -1 <= j < |rs|
    ensures j >= 0 ==> Sees(rs[j], admins, d)
    ensures forall k :: j < k < |rs| ==> !Sees(rs[k], admins, d)
  {
    if rs == [] then -1
    else if Sees(rs[|rs| - 1], admins, d) then |rs| - 1
    else
      var prefix := rs[..|rs| - 1];
      assert forall k :: 0 <= k < |prefix| ==> prefix[k] == rs[k];
      LastSeer(admins, prefix, d)
  }

  /**
   * Every reported assignment comes from a server that answered 200, reports
   * the admin online, and is the last such server.
   */
  lemma PresenceValueIsLastMatchingServer(admins: seq<(UserId, ReforgerId)>, rs: seq<ServerResponse>, d: UserId)
    ensures d in Presence(admins, rs) ==>
              exists j :: 0 <= j < |rs| && Sees(rs[j], admins, d) && Presence(admins, rs)[d] == rs[j].serverId
                          && forall k :: j < k < |rs| ==> !Sees(rs[k], admins, d)
  {
    PresenceMembership(admins, rs, d);
    var j := LastSeer(admins, rs, d);
    if j >= 0 {
      PresenceLastWins(admins, rs, d, j);
    }
  }

  /** An identity that is not in the registry snapshot is never reported. */
  lemma PresenceOnlyFromSnapshot(admins: seq<(UserId, ReforgerId)>, rs: seq<ServerResponse>, d: UserId)
    ensures d in Presence(admins, rs) ==> exists i :: 0 <= i < |admins| && admins[i].0 == d
  {
    PresenceMembership(admins, rs, d);
  }

  /**
   * An admin is mapped to a server only if that server answered 200 and
   * reports one of the admin's Reforger ids with type "reforgerUUID".
   */
  lemma MatchRequiresReforgerUuid(admins: seq<(UserId, ReforgerId)>, rs: seq<ServerResponse>, d: UserId)
    ensures d in Presence(admins, rs) ==> exists j, i ::
              && 0 <= j < |rs| && 0 <= i < |admins|
              && rs[j].status == StatusOk && rs[j].serverId == Presence(admins, rs)[d]
              && admins[i].0 == d && admins[i].1 in ServerIdentifiers(rs[j])
              && ServerIdentifiers(rs[j])[admins[i].1] == ReforgerUuidType
  {
    PresenceValueIsLastMatchingServer(admins, rs, d);
  }

  /**
   * Failed replies contribute nothing and do not stop the pass: the result is
   * the same as if only the successful replies had been processed.
   */
  lemma {:induction false} PresenceSkipsFailedServers(admins: seq<(UserId, ReforgerId)>, rs: seq<ServerResponse>)
    ensures Presence(admins, rs) == Presence(admins, Successful(rs))
  {
    if rs != [] {
      var prefix := rs[..|rs| - 1];
      var last := rs[|rs| - 1];
      PresenceSkipsFailedServers(admins, prefix);
      assert Presence(admins, rs) == ApplyResponse(Presence(admins, prefix), admins, last);
      if Succeeded(last) {
        var ok := Successful(prefix) + [last];
        assert Successful(rs) == ok;
        assert ok[..|ok| - 1] == Successful(prefix);
        assert Presence(admins, ok) == ApplyResponse(Presence(admins, Successful(prefix)), admins, last);
      } else {
        assert Successful(rs) == Successful(prefix);
      }
    }
  }

  /**
   * fetch_online_admins: the loop over the configured servers and, inside
   * it, over the registry snapshot, overwriting the presence map as it goes.
   */
  method FetchOnlineAdmins(admins: seq<(UserId, ReforgerId)>, responses: seq<ServerResponse>)
    returns (online: map<UserId, ServerId>)
    ensures online == Presence(admins, responses)
  {
    online := map[];
    for j := 0 to |responses|
      invariant online == Presence(admins, responses[..j])
    {
      assert responses[..j + 1][..j] == responses[..j];
      var response := responses[j];
      if response.status != StatusOk {
        continue;
      }
      var identifiers := IdentifierMap(IncludedOf(response.body));
      ghost var before := online;
      for i := 0 to |admins|
        invariant online == MatchAdmins(before, admins[..i], identifiers, response.serverId)
      {
        assert admins[..i + 1][..i] == admins[..i];
        var (discordId, reforgerId) := admins[i];
        if reforgerId in identifiers && identifiers[reforgerId] == ReforgerUuidType {
          online := online[discordId := response.serverId];
        }
      }
      assert admins[..|admins|] == admins;
    }
    assert responses[..|responses|] == responses;
  }
}
