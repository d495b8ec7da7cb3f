/**
 The enterprise team walk (`fetch_teams`, team.py:19-39). The walk requests
 a page, keeps `{id, name}` of every team on it, and follows the response's
 `next` link until none is left; on the first non-200 response it stops and
 returns the teams gathered so far.

 The upstream is a sequence of responses: the k-th response answers the
 k-th request. URL construction and the link header's parsing are not
 modelled, only whether the response carried a (non-empty) `next` link.
 */
module Teams {
  import opened Values

  /**
   One team object of a page body; `slug` is present upstream but dropped by
   the walk. A `name` of JSON null is `None`: the walk keeps it as it is.
   */
  datatype TeamEntry = TeamEntry(id: int, name: Option<string>, slug: string)

  /** What the walk keeps of a team. */
  datatype Team = Team(id: int, name: Option<string>)

  /** A response to a team-page request: status, decoded body, and the `next` link's URL if any. */
  datatype TeamResponse = TeamResponse(status: int, body: seq<TeamEntry>, next: Option<string>)

  datatype TeamWalk = TeamWalk(teams: seq<Team>, requests: nat, stop: Stop)

  function Keep(e: TeamEntry): Team {
    Team(e.id, e.name)
  }

  function KeepAll(body: seq<TeamEntry>): seq<Team> {
    seq(|body|, i requires 0 <= i < |body| => Keep(body[i]))
  }

  /** The response links to a further page; an absent or empty link URL ends the walk. */
  predicate HasNext(r: TeamResponse) {
    r.next.Some? && r.next.value != ""
  }

  /** The walk asks for another page after this response. */
  predicate Continues(r: TeamResponse) {
    r.status == StatusOk && HasNext(r)
  }

  function FetchTeams(rs: seq<TeamResponse>): (w: TeamWalk)
    ensures w.requests <= |rs|
    ensures |rs| > 0 ==> w.requests >= 1
    ensures w.stop == OutOfResponses <==> w.requests == |rs| && (|rs| == 0 || Continues(rs[|rs| - 1]))
    decreases |rs|
  {
    if |rs| == 0 then TeamWalk([], 0, OutOfResponses)
    else if rs[0].status != StatusOk then TeamWalk([], 1, HttpError(rs[0].status))
    else if !HasNext(rs[0]) then TeamWalk(KeepAll(rs[0].body), 1, LastPage)
    else
      var rest := FetchTeams(rs[1..]);
      TeamWalk(KeepAll(rs[0].body) + rest.teams, 1 + rest.requests, rest.stop)
  }

  // ---------------------------------------------------------------------
  // Reference definitions: where the walk stops, and what a prefix of
  // responses contributes.
  // ---------------------------------------------------------------------

  /** Index of the first response after which the walk does not continue, or `|rs|`. */
  function StopIndex(rs: seq<TeamResponse>): (n: nat)
    ensures n <= |rs|
    ensures forall k :: 0 <= k < n ==> Continues(rs[k])
    ensures n < |rs| ==> !Continues(rs[n])
    decreases |rs|
  {
    if |rs| == 0 || !Continues(rs[0]) then 0 else 1 + StopIndex(rs[1..])
  }

  /** All teams, in order, of the successful responses among `rs`. */
  function Harvest(rs: seq<TeamResponse>): seq<Team>
    decreases |rs|
  {
    if |rs| == 0 then []
    else (if rs[0].status == StatusOk then KeepAll(rs[0].body) else []) + Harvest(rs[1..])
  }

  /**
   The walk makes one request per continuing response plus the one it
   stops on, returns the teams of exactly those responses in order, and
   reports why it stopped.
   */
  lemma {:induction false} FetchTeamsSpec(rs: seq<TeamResponse>)
    ensures var w := FetchTeams(rs);
            var n := StopIndex(rs);
            && w.requests == (if n < |rs| then n + 1 else |rs|)
            && w.teams == Harvest(rs[..w.requests])
            && w.stop == (if n == |rs| then OutOfResponses
                          else if rs[n].status == StatusOk then LastPage
                          else HttpError(rs[n].status))
  {
    var n := StopIndex(rs);
    if n < |rs| {
      TeamWalkStopsAt(rs, n);
      HarvestAppend(rs[..n], [rs[n]]);
      assert rs[..n + 1] == rs[..n] + [rs[n]];
      assert [rs[n]][1..] == [];
    } else {
      TeamWalkNeverStops(rs);
      assert rs[..n] == rs;
    }
  }

  /** A walk whose responses all continue it reads every response and keeps every page's teams. */
  lemma {:induction false} TeamWalkNeverStops(rs: seq<TeamResponse>)
    requires forall j :: 0 <= j < |rs| ==> Continues(rs[j])
    ensures var w := FetchTeams(rs);
            w.requests == |rs| && w.teams == Harvest(rs) && w.stop == OutOfResponses
    decreases |rs|
  {
    if |rs| > 0 {
      TeamWalkNeverStops(rs[1..]);
    }
  }

  /** A walk whose first non-continuing response is `k` makes `k + 1` requests. */
  lemma {:induction false} TeamWalkStopsAt(rs: seq<TeamResponse>, k: nat)
    requires k < |rs|
    requires forall j :: 0 <= j < k ==> Continues(rs[j])
    requires !Continues(rs[k])
    ensures var w := FetchTeams(rs);
            && w.requests == k + 1
            && w.teams == Harvest(rs[..k]) + (if rs[k].status == StatusOk then KeepAll(rs[k].body) else [])
            && w.stop == (if rs[k].status == StatusOk then LastPage else HttpError(rs[k].status))
    decreases k
  {
    if k == 0 {
      assert rs[..0] == [];
    } else {
      var tail := rs[1..];
      TeamWalkStopsAt(tail, k - 1);
      assert rs[..k] == [rs[0]] + tail[..k - 1];
      assert rs[..k][1..] == tail[..k - 1];
    }
  }

  /** On the first failed response the walk returns what the earlier pages gave. */
  lemma PartialResultOnError(rs: seq<TeamResponse>, k: nat)
    requires k < |rs|
    requires forall j :: 0 <= j < k ==> Continues(rs[j])
    requires rs[k].status != StatusOk
    ensures FetchTeams(rs).teams == Harvest(rs[..k])
    ensures FetchTeams(rs).stop == HttpError(rs[k].status)
  {
    TeamWalkStopsAt(rs, k);
  }

  lemma {:induction false} HarvestAppend(a: seq<TeamResponse>, b: seq<TeamResponse>)
    ensures Harvest(a + b) == Harvest(a) + Harvest(b)
    decreases |a|
  {
    if |a| > 0 {
      HarvestAppend(a[1..], b);
      assert (a + b)[1..] == a[1..] + b;
    } else {
      assert a + b == b;
    }
  }

  /** Responses after the one the walk stopped on are never read. */
  lemma {:induction false} LaterResponsesIgnored(rs: seq<TeamResponse>, rs': seq<TeamResponse>)
    requires FetchTeams(rs).stop != OutOfResponses
    requires FetchTeams(rs).requests <= |rs'|
    requires rs'[..FetchTeams(rs).requests] == rs[..FetchTeams(rs).requests]
    ensures FetchTeams(rs') == FetchTeams(rs)
    decreases |rs|
  {
    var n := FetchTeams(rs).requests;
    assert rs'[0] == rs'[..n][0] == rs[..n][0] == rs[0];
    if Continues(rs[0]) {
      var m := FetchTeams(rs[1..]).requests;
      assert rs'[1..][..m] == rs'[..n][1..] == rs[..n][1..] == rs[1..][..m];
      LaterResponsesIgnored(rs[1..], rs'[1..]);
    }
  }

  /**
   The walk written as the source's loop: request, keep the page's teams,
   and go on while the response carried a `next` link.
   */
  method FetchTeamsLoop(rs: seq<TeamResponse>) returns (teams: seq<Team>, requests: nat)
    ensures requests == FetchTeams(rs).requests
    ensures teams == FetchTeams(rs).teams
  {
    teams := [];
    requests := 0;
    var more := true;
    while more && requests < |rs|
      invariant requests <= |rs|
      invariant teams == Harvest(rs[..requests])
      invariant more ==> forall k :: 0 <= k < requests ==> Continues(rs[k])
      invariant !more ==> requests == FetchTeams(rs).requests
      invariant !more ==> teams == FetchTeams(rs).teams
      decreases |rs| - requests
    {
      var response := rs[requests];
      HarvestAppend(rs[..requests], [response]);
      assert rs[..requests + 1] == rs[..requests] + [response];
      assert [response][1..] == [];
      if response.status == StatusOk {
        teams := teams + KeepAll(response.body);
        more := HasNext(response);
      } else {
        more := false;
      }
      if !more {
        TeamWalkStopsAt(rs, requests);
      }
      requests := requests + 1;
    }
    if more {
      TeamWalkNeverStops(rs);
      assert rs[..requests] == rs;
    }
  }
}
