/**
 * The status report: the headline count of online admins (the bot's
 * presence line and the embed title) and, for every server with a summary,
 * the admins that the presence map assigns to it.
 */
module StatusReport {
  import opened Responses
  import opened OnlineAdmins
  import opened ServerDetails

  /** The headline: "No Admins Online", or the number of admins online. */
  datatype Headline = NoAdminsOnline | AdminsOnline(count: nat)

  /** The headline for a presence map: it counts every entry of the map. */
  function HeadlineOf(online: map<UserId, ServerId>): (h: Headline)
    ensures h == NoAdminsOnline <==> online == map[]
    ensures h.AdminsOnline? ==> h.count == |online.Keys| > 0
  {
    if |online| > 0 then AdminsOnline(|online|) else NoAdminsOnline
  }

  /** admins_in_server: the admins whose entry in the presence map is `serverId`. */
  function AdminsInServer(online: map<UserId, ServerId>, serverId: ServerId): set<UserId> {
    set d | d in online && online[d] == serverId
  }

  /** One embed field: a server's name, its player count and its online admins. */
  datatype Field = Field(name: string, playerCount: int, admins: set<UserId>)

  /**
   * The embed's fields, one per server that has a summary: each shows that
   * server's name and player count and lists exactly the admins the presence
   * map assigns to it.
   */
  function EmbedFields(details: map<ServerId, ServerSummary>, online: map<UserId, ServerId>): (fields: map<ServerId, Field>)
    ensures fields.Keys == details.Keys
    ensures forall s :: s in details ==>
              fields[s].name == details[s].name && fields[s].playerCount == details[s].playerCount
    ensures forall s, d :: s in details ==> (d in fields[s].admins <==> d in online && online[d] == s)
  {
    map s | s in details :: Field(details[s].name, details[s].playerCount, AdminsInServer(online, s))
  }

  /**
   * An online admin is listed under exactly one field: that of the server the
   * presence map assigns the admin to, if that server has a summary.
   */
  lemma AdminListedOnlyUnderItsServer(details: map<ServerId, ServerSummary>, online: map<UserId, ServerId>,
                                      d: UserId, s: ServerId)
    requires s in details
    ensures d in EmbedFields(details, online)[s].admins <==> d in online && online[d] == s
  {
  }

  /** The total size of the groups of the servers in `ids`. */
  function GroupSizes(online: map<UserId, ServerId>, ids: seq<ServerId>): nat {
    if ids == [] then 0 else |AdminsInServer(online, ids[0])| + GroupSizes(online, ids[1..])
  }

  /** `ids` names no server twice. */
  predicate Distinct(ids: seq<ServerId>) {
    forall i, j :: 0 <= i < j < |ids| ==> ids[i] != ids[j]
  }

  /**
   * The groups of distinct servers do not overlap, so their sizes add up to
   * the number of admins assigned to any of those servers.
   */
  lemma {:induction false} GroupSizesCountAssignedAdmins(online: map<UserId, ServerId>, ids: seq<ServerId>)
    requires Distinct(ids)
    ensures GroupSizes(online, ids) == |set d | d in online && online[d] in ids|
  {
    if ids == [] {
      assert (set d | d in online && online[d] in ids) == {};
    } else {
      var rest := ids[1..];
      GroupSizesCountAssignedAdmins(online, rest);
      var head := AdminsInServer(online, ids[0]);
      var tail := set d | d in online && online[d] in rest;
      assert ids[0] !in rest;
      assert head * tail == {};
      assert (set d | d in online && online[d] in ids) == head + tail;
    }
  }

  /**
   * When every server the presence map names has a summary, listed once in
   * `order`, the admins listed across the embed's fields add up to the
   * headline count.
   */
  lemma HeadlineMatchesListedAdmins(details: map<ServerId, ServerSummary>, online: map<UserId, ServerId>,
                                    order: seq<ServerId>)
    requires Distinct(order)
    requires forall s :: s in order <==> s in details
    requires forall d :: d in online ==> online[d] in details
    ensures GroupSizes(online, order) == |online|
    ensures HeadlineOf(online) == if |online| == 0 then NoAdminsOnline else AdminsOnline(GroupSizes(online, order))
  {
    GroupSizesCountAssignedAdmins(online, order);
    assert (set d | d in online && online[d] in order) == online.Keys;
  }

  /**
   * The converse: when some online admin is assigned to a server that has no
   * summary (its identifier query succeeded but its details query did not),
   * the admins listed across the fields fall short of the headline count.
   */
  lemma ListedAdminsFallShortOfHeadline(details: map<ServerId, ServerSummary>, online: map<UserId, ServerId>,
                                        order: seq<ServerId>, d: UserId)
    requires Distinct(order)
    requires forall s :: s in order <==> s in details
    requires d in online && online[d] !in details
    ensures GroupSizes(online, order) < |online|
    ensures HeadlineOf(online) == AdminsOnline(|online|)
  {
    GroupSizesCountAssignedAdmins(online, order);
    var listed := set d' | d' in online && online[d'] in order;
    assert online[d] !in order;
    StrictSubsetIsSmaller(listed, online.Keys, d);
  }

  /** A subset that misses an element of the larger set is strictly smaller. */
  lemma StrictSubsetIsSmaller(small: set<UserId>, large: set<UserId>, x: UserId)
    requires small <= large && x in large && x !in small
    ensures |small| < |large|
  {
    var rest := large - small;
    assert x in rest;
    assert large == small + rest && small * rest == {};
  }
}
