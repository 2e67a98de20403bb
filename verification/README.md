# Reforger admin presence bot — reconciliation core in Dafny

The bot keeps a table of registered admins (Discord id → Reforger id and
role). Every few minutes it asks the server-listing service, once per
configured server, which player identifiers are on that server. It matches
those identifiers against the table and publishes the result: the number of
admins online and, for each server, the admins playing there. A slash
command lets an admin register or update a Reforger id. A cleanup pass drops
the rows of members who lost the required role.

This project models that core with the I/O replaced by values:

- `responses.dfy` (`Responses`): the replies of the server-listing service.
  Each reply carries the configured server it answers for, its HTTP status
  and the decoded body reduced to the fields the bot reads (`data.attributes`
  name and players, the `included` array). Absent JSON fields are `None`.
- `presence.dfy` (`OnlineAdmins`): the identifier dictionary of one reply,
  the per-server matching loop, and the presence map built by the outer loop
  over servers. `FetchOnlineAdmins` is the imperative loop. `Presence` is the
  function it is proved against.
- `details.dfy` (`ServerDetails`): the server-id → (name, player count) map.
  Missing fields fall back to "Unknown Server" and 0. `FetchServerDetails`
  is the loop, proved against `Details`.
- `registry.dfy` (`AdminRegistry`): the `admins` table as a class over a map.
  `AddMyId` upserts and `CleanupRemovedAdmins` deletes. Their new states are
  given by the functions `Upsert` and `Cleaned`, whose contracts and lemmas
  state the source's rules.
- `status.dfy` (`StatusReport`): the headline count and the per-server
  grouping of the presence map used in the status embed.

Inputs that the source obtains by I/O are parameters here:

- the registry snapshot is a sequence of (Discord id, Reforger id) pairs;
- the replies are a sequence of `ServerResponse` values, in the iteration
  order of the `SERVER_*` settings;
- the guild's membership is a map from Discord id to the member's role list
  (a missing key means `get_member` found no one);
- the caller of `/addmyid` is given by its id and role list.

What the program does and does not do, stated plainly:

- The presence map is keyed by Discord id.
- `/addmyid` does not validate the format of the Reforger id.
- A non-numeric server id is queried like any other. Only a non-200 reply
  makes it contribute nothing.
- The bot has no override, merge or publishing code. None is modelled.

## Model

| member | source | states |
|---|---|---|
| `OnlineAdmins.IdentifierMap` | main.py:113 | an identifier is a key of a reply's dictionary exactly when some included entry of kind "identifier" names it; other entries contribute nothing |
| `OnlineAdmins.IdentifierMapLastWins` | main.py:113 | when several "identifier" entries name the same identifier, the recorded type is that of the last one (dict comprehension overwrite) |
| `OnlineAdmins.MatchAdmins` | main.py:115-117 | after the loop over the snapshot for one server, exactly the admins whose Reforger id is reported with type "reforgerUUID" are assigned to that server; all other entries of the map are unchanged |
| `OnlineAdmins.PresenceMembership` | main.py:103-117 | an admin is in the presence map exactly when some server that answered 200 reports one of the admin's Reforger ids as a "reforgerUUID" identifier |
| `OnlineAdmins.PresenceLastWins` | main.py:105-117 | if server j is the last (in configuration order) to see the admin, the admin is mapped to server j's id |
| `OnlineAdmins.PresenceValueIsLastMatchingServer` | main.py:105-117 | every assignment names a server that answered 200, sees the admin, and has no later server seeing the admin |
| `OnlineAdmins.PresenceOnlyFromSnapshot` | main.py:98-117 | an identity that is not in the registry snapshot is never reported, whatever the servers report |
| `OnlineAdmins.MatchRequiresReforgerUuid` | main.py:113-117 | an admin is mapped to a server only if that server answered 200 and lists one of the admin's Reforger ids with type "reforgerUUID"; the mapped value is that configured server's id |
| `OnlineAdmins.PresenceSkipsFailedServers` | main.py:105-110 | replies that arrive with a non-200 status contribute nothing and do not stop the pass: the result equals that of processing only the 200 replies |
| `OnlineAdmins.FetchOnlineAdmins` | main.py:94-120 | the nested loop (servers, then snapshot rows) returns exactly the presence map `Presence` specifies |
| `ServerDetails.SummaryOf` | main.py:88-90 | the name is the reply's `data.attributes.name` if present, else "Unknown Server"; the player count is `data.attributes.players` if present, else 0; a reply without `data` gives ("Unknown Server", 0) |
| `ServerDetails.DetailsMembership` | main.py:79-90 | a server id has a summary exactly when one of its replies answered 200 |
| `ServerDetails.DetailsLastWins` | main.py:81-90 | a server id configured more than once gets the summary of its last successful reply |
| `ServerDetails.DetailsSkipFailedServers` | main.py:81-85 | replies that arrive with a non-200 status contribute nothing and do not stop the pass: the result equals that of processing only the 200 replies |
| `ServerDetails.FetchServerDetails` | main.py:78-92 | the loop over the servers returns exactly the map `Details` specifies |
| `AdminRegistry.Upsert` | main.py:50-70 | a caller without the required role leaves the table unchanged; otherwise the caller's row has the given Reforger id, an existing row keeps its role id, a new row gets the required role, and no other row changes |
| `AdminRegistry.Cleaned` | main.py:136-146 | a row is deleted exactly when its member is found and lacks the required role; rows whose member is not found, or who holds the role, are kept unchanged |
| `AdminRegistry.UpsertIdempotent` | main.py:61-70 | repeating the same `/addmyid` call leaves the table as after the first |
| `AdminRegistry.CleanupIdempotent` | main.py:136-146 | a second cleanup pass against the same membership deletes nothing more |
| `AdminRegistry.RegisteredAdminSurvivesCleanup` | main.py:64-70 | a row written by an authorized `/addmyid` survives cleanup, with its new Reforger id, while the member holds the role or is not found |
| `AdminRegistry.PresenceOnlyRegisteredAdmins` | main.py:96-117 | when the snapshot lists the table's rows, every admin reported present has a row in the table |
| `AdminRegistry.Registry.AddMyId` | main.py:48-76 | the table afterwards is `Upsert` of the table before; the reply is "permission denied", "updated" or "registered" exactly in the corresponding case |
| `AdminRegistry.Registry.CleanupRemovedAdmins` | main.py:129-149 | the loop over the registered ids, deleting one row at a time, leaves exactly the table `Cleaned` specifies |
| `StatusReport.HeadlineOf` | main.py:159-164 | the headline says "no admins online" exactly when the presence map is empty, and otherwise carries the number of its entries |
| `StatusReport.EmbedFields` | main.py:191-204 | the embed has one field per server that has a summary; each field carries that server's name and player count and lists exactly the admins the presence map assigns to that server |
| `StatusReport.AdminListedOnlyUnderItsServer` | main.py:195-198 | an admin is listed under a server's field exactly when the presence map assigns the admin to that server |
| `StatusReport.GroupSizesCountAssignedAdmins` | main.py:195-198 | the groups of distinct servers are disjoint: their sizes add up to the number of admins assigned to any of those servers |
| `StatusReport.HeadlineMatchesListedAdmins` | main.py:182-198 | when every server the presence map names has a summary, the admins listed across the fields add up to the headline count |
| `StatusReport.ListedAdminsFallShortOfHeadline` | main.py:179-198 | when an online admin's server answered the identifier query but has no summary (its details query failed), the headline counts more admins than the fields list |
| `Responses.SuccessfulAppend` | main.py:84-85 | the successful-replies filter keeps order: filtering a concatenation gives the filtered parts in the same order |

## Left out

- Discord calls are not modelled, because they belong to a foreign library: interactions and their replies, `change_presence`, embed rendering, mentions, `fetch_message`/`send`, and slash-command sync (main.py:48-52, 166, 183-216, 218-232). `/printdb` (main.py:234-260) only renders the table.
- MySQL connections, cursors and commits are not modelled; the table is a map. Each operation is one atomic step on that map.
- HTTP requests and JSON decoding are not modelled; each reply is a given value. In the source, `session.get` and `response.json()` (main.py:83, 87, 107, 112) are not wrapped in any `try`. A connection error, a time-out, an undecodable body or an included entry of kind "identifier" without `attributes` raises out of `fetch_server_details` or `fetch_online_admins`. Neither `update_embed` nor `update_status` catches it, so the pass is abandoned and that periodic task ends for good. The model does not capture this. `OnlineAdmins.PresenceSkipsFailedServers` and `ServerDetails.DetailsSkipFailedServers` cover only replies that arrive with a non-200 status.
- `None` values inside the JSON (for example `"data": null`) are not modelled. Only absent fields are.
- The `asyncio` loops, sleeps and task creation are not modelled. Neither are their intervals or interleavings. Each model operation is one pass.
- Environment loading, the clock and timestamps, and the append of `MESSAGE_ID` to `.env` are not modelled.
- Python dicts keep insertion order; Dafny maps do not. The order of the embed's fields and of the mentions within a field is not modelled.
- `int(discord_id)` in the cleanup pass and in the embed is not modelled. Neither is `get_user` returning `None`. Discord ids are their decimal text throughout.
- AdminRegistry.AdminRecord stores the required role id as a number, where the table stores its decimal text. The conversion is injective, so nothing is lost.
- The debug and error prints are not modelled.
