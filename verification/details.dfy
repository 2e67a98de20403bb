/**
 * Server summaries: for every configured server that answered 200, its
 * display name and player count, with defaults for missing fields.
 */
module ServerDetails {
  import opened Responses

  /** The name shown when a reply carries none. */
  const UnknownServerName := "Unknown Server"

  datatype ServerSummary = ServerSummary(name: string, playerCount: int)

  /** `data.get("data", {}).get("attributes", {})`: absent levels read as an empty object. */
  function AttributesOf(b: Body): Option<Attributes> {
    match b.data
    case None => None
    case Some(d) => d.attributes
  }

  /** The `name` field, if the reply has one at `data.attributes.name`. */
  function NameField(b: Body): Option<string> {
    match AttributesOf(b)
    case None => None
    case Some(a) => a.name
  }

  /** The `players` field, if the reply has one at `data.attributes.players`. */
  function PlayersField(b: Body): Option<int> {
    match AttributesOf(b)
    case None => None
    case Some(a) => a.players
  }

  /**
   * The summary of one successful reply: the reported name and player count,
   * or "Unknown Server" and 0 where the reply does not carry them.
   */
  function SummaryOf(b: Body): (s: ServerSummary)
    ensures NameField(b) == Some(s.name) || (NameField(b) == None && s.name == UnknownServerName)
    ensures PlayersField(b) == Some(s.playerCount) || (PlayersField(b) == None && s.playerCount == 0)
    ensures b.data == None ==> s == ServerSummary(UnknownServerName, 0)
  {
    ServerSummary(NameField(b).GetOr(UnknownServerName), PlayersField(b).GetOr(0))
  }

  /** The server_id -> summary map after processing all replies in order. */
  function Details(rs: seq<ServerResponse>): map<ServerId, ServerSummary> {
    if rs == [] then map[]
    else
      var before := Details(rs[..|rs| - 1]);
      var last := rs[|rs| - 1];
      if last.status != StatusOk then before else before[last.serverId := SummaryOf(last.body)]
  }

  /** A server id has a summary exactly when one of its replies answered 200. */
  lemma {:induction false} DetailsMembership(rs: seq<ServerResponse>, id: ServerId)
    ensures id in Details(rs) <==> exists j :: 0 <= j < |rs| && Succeeded(rs[j]) && rs[j].serverId == id
  {
    if rs != [] {
      var prefix := rs[..|rs| - 1];
      DetailsMembership(prefix, id);
      assert forall j :: 0 <= j < |prefix| ==> prefix[j] == rs[j];
    }
  }

  /**
   * When a server id is configured more than once, the summary is that of
   * its last successful reply.
   */
  lemma {:induction false} DetailsLastWins(rs: seq<ServerResponse>, j: nat)
    requires j < |rs| && Succeeded(rs[j])
    requires forall k :: j < k < |rs| && Succeeded(rs[k]) ==> rs[k].serverId != rs[j].serverId
    ensures rs[j].serverId in Details(rs) && Details(rs)[rs[j].serverId] == SummaryOf(rs[j].body)
  {
    if j < |rs| - 1 {
      var prefix := rs[..|rs| - 1];
      assert forall k :: j < k < |prefix| ==> prefix[k] == rs[k];
      DetailsLastWins(prefix, j);
    }
  }

  /**
   * Failed replies contribute nothing and do not stop the pass: the result is
   * the same as if only the successful replies had been processed.
   */
  lemma {:induction false} DetailsSkipFailedServers(rs: seq<ServerResponse>)
    ensures Details(rs) == Details(Successful(rs))
  {
    if rs != [] {
      var prefix := rs[..|rs| - 1];
      var last := rs[|rs| - 1];
      DetailsSkipFailedServers(prefix);
      if Succeeded(last) {
        var ok := Successful(prefix) + [last];
        assert Successful(rs) == ok;
        assert ok[..|ok| - 1] == Successful(prefix);
      } else {
        assert Successful(rs) == Successful(prefix);
      }
    }
  }

  /**
   * fetch_server_details: the loop over the configured servers, skipping
   * failed replies and recording a summary for each successful one.
   */
  method FetchServerDetails(responses: seq<ServerResponse>) returns (details: map<ServerId, ServerSummary>)
    ensures details == Details(responses)
  {
    details := map[];
    for j := 0 to |responses|
      invariant details == Details(responses[..j])
    {
      assert responses[..j + 1][..j] == responses[..j];
      var response := responses[j];
      if response.status != StatusOk {
        continue;
      }
      var summary := SummaryOf(response.body);
      details := details[response.serverId := summary];
    }
    assert responses[..|responses|] == responses;
  }
}
