/**
 * The replies of the server-listing service, as the bot receives them.
 *
 * The bot asks the service once per configured server (the `SERVER_*`
 * settings, in their iteration order). Each reply is given here as a value:
 * the configured server it answers for, its HTTP status, and the decoded JSON
 * body reduced to the fields the bot reads.
 */
module Responses {

  datatype Option<T> = None | Some(value: T) {
    /** The carried value, or `default` when there is none (Python's `dict.get(key, default)`). */
    function GetOr(default: T): T {
      match this
      case Some(v) => v
      case None => default
    }
  }

  /** A server identifier as configured (the value of one `SERVER_*` setting). */
  type ServerId = string

  /** The only status the bot treats as a usable reply. */
  const StatusOk := 200

  /**
   * One element of the body's `included` array: its `type`, and the
   * `identifier` and `type` found under its `attributes`.
   */
  datatype Included = Included(kind: string, identifier: string, idType: string)

  /** `data.attributes`: the server's `name` and `players`, each possibly absent. */
  datatype Attributes = Attributes(name: Option<string>, players: Option<int>)

  /** `data`: its `attributes` object, possibly absent. */
  datatype Data = Data(attributes: Option<Attributes>)

  /** The decoded body: the `data` object and the `included` array, each possibly absent. */
  datatype Body = Body(data: Option<Data>, included: Option<seq<Included>>)

  /** The reply obtained for one configured server. */
  datatype ServerResponse = ServerResponse(serverName: string, serverId: ServerId, status: int, body: Body)

  predicate Succeeded(r: ServerResponse) {
    r.status == StatusOk
  }

  /** `data.get("included", [])`: an absent array reads as empty. */
  function IncludedOf(b: Body): seq<Included> {
    b.included.GetOr([])
  }

  /** The replies that succeeded, in their original order. */
  function Successful(rs: seq<ServerResponse>): (ok: seq<ServerResponse>)
    ensures |ok| <= |rs|
    ensures forall r :: r in ok <==> r in rs && Succeeded(r)
  {
    if rs == [] then []
    else
      var last := rs[|rs| - 1];
      Successful(rs[..|rs| - 1]) + if Succeeded(last) then [last] else []
  }

  /**
   * Filtering keeps order: the successful replies of a concatenation are those
   * of its first part followed by those of its second.
   */
  lemma {:induction false} SuccessfulAppend(a: seq<ServerResponse>, b: seq<ServerResponse>)
    ensures Successful(a + b) == Successful(a) + Successful(b)
  {
    if b != [] {
      var b' := b[..|b| - 1];
      var last := b[|b| - 1];
      assert (a + b)[..|a + b| - 1] == a + b';
      SuccessfulAppend(a, b');
    } else {
      assert a + b == a;
    }
  }

  /** A single reply is kept exactly when it succeeded. */
  lemma SuccessfulSingle(r: ServerResponse)
    ensures Successful([r]) == if Succeeded(r) then [r] else []
  {
    assert [r][..0] == [];
  }
}
