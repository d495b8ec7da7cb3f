/**
 The Copilot billing-seat walk and report-row builder
 (`get_copilot_billing_seats`, team.py:68-135).

 Pages are requested by number, 1, 2, 3, ...; the k-th exchange of the
 modelled upstream answers the request for page k + 1. After every
 response the rate-limit guard computes its wait. The walk stops at the
 first non-200 response or at the first 200 whose `seats` is missing, null
 or empty; rows already built are kept. Each seat whose assigning team's
 name is among the fetched team names and whose assignee has a non-empty
 login yields one row; its user details come from the `lookup` parameter,
 which stands for the per-user request.
 */
module BillingSeats {
  import opened Values
  import opened EditorActivity
  import opened RateLimit
  import opened UserDetails
  import opened Teams

  /** `assignee` of a seat: only its login is read. */
  datatype Assignee = Assignee(login: Field)

  /** `assigning_team` of a seat. */
  datatype AssigningTeam = AssigningTeam(name: Field, slug: Field)

  /**
   One entry of a page's `seats`. `None` for the two objects means the key
   is absent; an object present as JSON null is not representable here.
   */
  datatype Seat = Seat(
    assignee: Option<Assignee>,
    assigningTeam: Option<AssigningTeam>,
    lastActivityAt: Field,
    lastActivityEditor: Field)

  /** One line of the report, in the CSV's column order. */
  datatype Row = Row(
    username: string,
    teamSlug: string,
    email: string,
    createdAt: string,
    lastActivityAt: string,
    lastActiveEditor: string,
    editorVersion: string,
    plugin: string,
    pluginVersion: string)

  /** The CSV header the report is written under. */
  const Columns: seq<string> := [
    "Username", "Team Slug", "Email", "Created At", "Last Activity At",
    "Last Active Editor", "Editor Version", "Plugin", "Plugin Version"]

  /** A response to a seat-page request; `seats` is `None` when missing or null. */
  datatype SeatResponse = SeatResponse(status: int, headers: RateHeaders, seats: Option<seq<Seat>>)

  /** One request/response exchange: the response and the clock second at which it was inspected. */
  datatype Exchange = Exchange(response: SeatResponse, now: nat)

  datatype SeatWalk = SeatWalk(rows: seq<Row>, requests: nat, waits: seq<Option<nat>>, stop: Stop)

  // ---------------------------------------------------------------------
  // One seat
  // ---------------------------------------------------------------------

  /**
   The name a seat is matched under. "N/A" stands in only when the `name`
   key is missing (or the whole assigning team is); a null name is `None`,
   which equals the name of a fetched team whose own name is null.
   */
  function MatchName(s: Seat): Option<string> {
    match s.assigningTeam
    case None => Some(NA)
    case Some(t) =>
      match t.name
      case Missing => Some(NA)
      case Null => None
      case Str(n) => Some(n)
  }

  function Login(s: Seat): Field {
    match s.assignee
    case None => Missing
    case Some(a) => a.login
  }

  function Slug(s: Seat): Field {
    match s.assigningTeam
    case None => Missing
    case Some(t) => t.slug
  }

  /** The fetched teams' names, in order, as the seat filter compares against them. */
  function TeamNames(teams: seq<Team>): (names: seq<Option<string>>)
    ensures |names| == |teams|
    ensures forall i :: 0 <= i < |teams| ==> names[i] == teams[i].name
  {
    seq(|teams|, i requires 0 <= i < |teams| => teams[i].name)
  }

  /** The seat filter of team.py:96. */
  predicate Accepted(s: Seat, teams: seq<Team>) {
    && MatchName(s) in TeamNames(teams)
    && Truthy(Login(s))
  }

  /** The row an accepted seat yields. */
  function BuildRow(s: Seat, lookup: string -> UserResponse): (r: Row)
    requires Truthy(Login(s))
    ensures r.username == Login(s).text
    // a missing or empty slug or activity time becomes "N/A"; a present one is kept
    ensures r.teamSlug != "" && r.lastActivityAt != ""
    ensures Truthy(Slug(s)) ==> r.teamSlug == Slug(s).text
    ensures !Truthy(Slug(s)) ==> r.teamSlug == NA
    ensures Truthy(s.lastActivityAt) ==> r.lastActivityAt == s.lastActivityAt.text
    ensures !Truthy(s.lastActivityAt) ==> r.lastActivityAt == NA
    // the profile fields are the lookup's, never empty
    ensures r.email != "" && r.createdAt != ""
    ensures Details(r.email, r.createdAt) == GetUserDetails(lookup(r.username))
    ensures lookup(r.username).status != StatusOk ==> r.email == NA && r.createdAt == NA
    ensures lookup(r.username).status == StatusOk && Truthy(lookup(r.username).email) ==>
      r.email == lookup(r.username).email.text
    ensures lookup(r.username).status == StatusOk && Truthy(lookup(r.username).createdAt) ==>
      r.createdAt == lookup(r.username).createdAt.text
    // the four editor fields are the decoded activity string
    ensures EditorFields(r.lastActiveEditor, r.editorVersion, r.plugin, r.pluginVersion)
         == DecodeEditor(s.lastActivityEditor)
    // a seat without editor activity gets the split of the sentinel text "N/A"
    ensures !Truthy(s.lastActivityEditor) ==>
      r.lastActiveEditor == "N" && r.editorVersion == "A" && r.plugin == NA && r.pluginVersion == NA
  {
    var username := OrNA(Login(s));
    var details := GetUserDetails(lookup(username));
    var editor := DecodeEditor(s.lastActivityEditor);
    Row(
      username,
      OrNA(Slug(s)),
      details.email,
      details.createdAt,
      OrNA(s.lastActivityAt),
      editor.editor,
      editor.editorVersion,
      editor.plugin,
      editor.pluginVersion)
  }

  function RowFor(s: Seat, teams: seq<Team>, lookup: string -> UserResponse): (r: Option<Row>)
    // a row exactly when the seat's team name is some fetched team's name and the login is non-empty
    ensures r.Some? <==>
      (exists t :: t in teams && MatchName(s) == t.name) && Login(s).Str? && Login(s).text != ""
    // never a row with an empty username, and the username is the assignee's login
    ensures r.Some? ==> r.value.username != "" && Login(s) == Str(r.value.username)
  {
    if Accepted(s, teams) then Some(BuildRow(s, lookup)) else None
  }

  /**
   A seat without an assigning team, or whose team has no `name` key, is
   matched under the name "N/A"; a seat whose team name is null matches
   exactly the fetched teams whose name is null too.
   */
  lemma TeamNameDefault(s: Seat, teams: seq<Team>, lookup: string -> UserResponse)
    ensures s.assigningTeam.None? || s.assigningTeam.value.name.Missing? ==>
      (RowFor(s, teams, lookup).Some? <==> (exists t :: t in teams && t.name == Some(NA)) && Truthy(Login(s)))
    ensures s.assigningTeam.Some? && s.assigningTeam.value.name.Null? ==>
      (RowFor(s, teams, lookup).Some? <==> (exists t :: t in teams && t.name.None?) && Truthy(Login(s)))
  {
  }

  // ---------------------------------------------------------------------
  // One page
  // ---------------------------------------------------------------------

  /** The rows of one page's seats, in seat order. */
  function PageRows(seats: seq<Seat>, teams: seq<Team>, lookup: string -> UserResponse): (rows: seq<Row>)
    ensures |rows| <= |seats|
    decreases |seats|
  {
    if |seats| == 0 then []
    else
      var first := RowFor(seats[0], teams, lookup);
      var rest := PageRows(seats[1..], teams, lookup);
      match first
      case Some(r) => [r] + rest
      case None => rest
  }

  /** Seats the filter accepts, in order. */
  function AcceptedSeats(seats: seq<Seat>, teams: seq<Team>): seq<Seat>
    decreases |seats|
  {
    if |seats| == 0 then []
    else (if Accepted(seats[0], teams) then [seats[0]] else []) + AcceptedSeats(seats[1..], teams)
  }

  /** The rows of a page are exactly the rows built from its accepted seats, one each, in order. */
  lemma {:induction false} PageRowsAreAcceptedSeats(seats: seq<Seat>, teams: seq<Team>, lookup: string -> UserResponse)
    ensures var rows := PageRows(seats, teams, lookup);
            var acc := AcceptedSeats(seats, teams);
            && |rows| == |acc|
            && forall j :: 0 <= j < |rows| ==> Truthy(Login(acc[j])) && rows[j] == BuildRow(acc[j], lookup)
    decreases |seats|
  {
    if |seats| > 0 {
      PageRowsAreAcceptedSeats(seats[1..], teams, lookup);
      var rows := PageRows(seats, teams, lookup);
      var rest := PageRows(seats[1..], teams, lookup);
      var acc := AcceptedSeats(seats, teams);
      var acc' := AcceptedSeats(seats[1..], teams);
      if Accepted(seats[0], teams) {
        assert rows == [BuildRow(seats[0], lookup)] + rest;
        assert acc == [seats[0]] + acc';
        forall j | 0 <= j < |rows|
          ensures Truthy(Login(acc[j])) && rows[j] == BuildRow(acc[j], lookup)
        {
          if j > 0 {
            assert rows[j] == rest[j - 1] && acc[j] == acc'[j - 1];
          }
        }
      } else {
        assert rows == rest;
        assert acc == acc';
      }
    }
  }

  /** Every accepted seat has its row among the page's rows, and every row comes from an accepted seat. */
  lemma {:induction false} PageRowsMembership(seats: seq<Seat>, teams: seq<Team>, lookup: string -> UserResponse)
    ensures forall i :: 0 <= i < |seats| && Accepted(seats[i], teams) ==>
              BuildRow(seats[i], lookup) in PageRows(seats, teams, lookup)
    ensures forall r :: r in PageRows(seats, teams, lookup) ==>
              exists i :: 0 <= i < |seats| && Accepted(seats[i], teams) && r == BuildRow(seats[i], lookup)
    decreases |seats|
  {
    if |seats| > 0 {
      PageRowsMembership(seats[1..], teams, lookup);
      var rows := PageRows(seats, teams, lookup);
      var rest := PageRows(seats[1..], teams, lookup);
      assert forall i :: 1 <= i < |seats| ==> seats[i] == seats[1..][i - 1];
      forall r | r in rows
        ensures exists i :: 0 <= i < |seats| && Accepted(seats[i], teams) && r == BuildRow(seats[i], lookup)
      {
        if r in rest {
          var i' :| 0 <= i' < |seats[1..]| && Accepted(seats[1..][i'], teams) && r == BuildRow(seats[1..][i'], lookup);
          assert seats[i' + 1] == seats[1..][i'];
        } else {
          assert Accepted(seats[0], teams) && r == BuildRow(seats[0], lookup);
        }
      }
    }
  }

  /** Rows keep seat order across a split of the seat list. */
  lemma {:induction false} PageRowsAppend(a: seq<Seat>, b: seq<Seat>, teams: seq<Team>, lookup: string -> UserResponse)
    ensures PageRows(a + b, teams, lookup) == PageRows(a, teams, lookup) + PageRows(b, teams, lookup)
    decreases |a|
  {
    if |a| > 0 {
      PageRowsAppend(a[1..], b, teams, lookup);
      assert (a + b)[1..] == a[1..] + b;
      assert (a + b)[0] == a[0];
    } else {
      assert a + b == b;
    }
  }

  /**
   Only the set of fetched team names matters: several teams sharing a
   name, or the same team fetched twice, still give one row per seat.
   */
  lemma {:induction false} RowsDependOnTeamNamesOnly(seats: seq<Seat>, teams: seq<Team>, teams': seq<Team>, lookup: string -> UserResponse)
    requires forall n :: n in TeamNames(teams) <==> n in TeamNames(teams')
    ensures PageRows(seats, teams, lookup) == PageRows(seats, teams', lookup)
    decreases |seats|
  {
    if |seats| > 0 {
      RowsDependOnTeamNamesOnly(seats[1..], teams, teams', lookup);
      assert Accepted(seats[0], teams) == Accepted(seats[0], teams');
    }
  }

  /** With no fetched teams no seat qualifies. */
  lemma {:induction false} NoTeamsNoRows(seats: seq<Seat>, lookup: string -> UserResponse)
    ensures PageRows(seats, [], lookup) == []
    decreases |seats|
  {
    if |seats| > 0 {
      NoTeamsNoRows(seats[1..], lookup);
      assert TeamNames([]) == [];
    }
  }

  // ---------------------------------------------------------------------
  // The page walk
  // ---------------------------------------------------------------------

  /** The page lists at least one seat; a missing, null or empty list ends the walk. */
  predicate HasSeats(r: SeatResponse) {
    r.seats.Some? && |r.seats.value| > 0
  }

  /** The walk asks for the next page after this response. */
  predicate PageContinues(r: SeatResponse) {
    r.status == StatusOk && HasSeats(r)
  }

  function WaitOf(x: Exchange): Option<nat> {
    RateLimitWait(x.response.headers, x.now)
  }

  function WalkSeats(teams: seq<Team>, lookup: string -> UserResponse, xs: seq<Exchange>): (w: SeatWalk)
    ensures w.requests <= |xs|
    ensures |xs| > 0 ==> w.requests >= 1
    // the rate-limit guard runs once per request
    ensures |w.waits| == w.requests
    // the first wait is the guard's verdict on the first response
    ensures |xs| > 0 ==> w.waits[0] == WaitOf(xs[0])
    decreases |xs|
  {
    if |xs| == 0 then SeatWalk([], 0, [], OutOfResponses)
    else
      var response := xs[0].response;
      var wait := WaitOf(xs[0]);
      if response.status != StatusOk then SeatWalk([], 1, [wait], HttpError(response.status))
      else if !HasSeats(response) then SeatWalk([], 1, [wait], LastPage)
      else
        var rest := WalkSeats(teams, lookup, xs[1..]);
        SeatWalk(PageRows(response.seats.value, teams, lookup) + rest.rows,
                 1 + rest.requests, [wait] + rest.waits, rest.stop)
  }

  /** Index of the first exchange after which the walk does not continue, or `|xs|`. */
  function PageStopIndex(xs: seq<Exchange>): (n: nat)
    ensures n <= |xs|
    ensures forall k :: 0 <= k < n ==> PageContinues(xs[k].response)
    ensures n < |xs| ==> !PageContinues(xs[n].response)
    decreases |xs|
  {
    if |xs| == 0 || !PageContinues(xs[0].response) then 0 else 1 + PageStopIndex(xs[1..])
  }

  /** The seats of the pages among `xs` that continue the walk, in page order. */
  function SeatsSeen(xs: seq<Exchange>): seq<Seat>
    decreases |xs|
  {
    if |xs| == 0 then []
    else (if PageContinues(xs[0].response) then xs[0].response.seats.value else []) + SeatsSeen(xs[1..])
  }

  lemma {:induction false} SeatsSeenAppend(a: seq<Exchange>, b: seq<Exchange>)
    ensures SeatsSeen(a + b) == SeatsSeen(a) + SeatsSeen(b)
    decreases |a|
  {
    if |a| > 0 {
      SeatsSeenAppend(a[1..], b);
      assert (a + b)[1..] == a[1..] + b;
    } else {
      assert a + b == b;
    }
  }

  /**
   The walk requests pages until the first one that does not continue it;
   its rows are the rows of all seats on the pages before that one, in page
   order and then seat order; and it reports why it stopped.
   */
  lemma {:induction false} WalkSeatsSpec(teams: seq<Team>, lookup: string -> UserResponse, xs: seq<Exchange>)
    ensures var w := WalkSeats(teams, lookup, xs);
            var n := PageStopIndex(xs);
            && w.requests == (if n < |xs| then n + 1 else |xs|)
            && w.rows == PageRows(SeatsSeen(xs[..n]), teams, lookup)
            && w.stop == (if n == |xs| then OutOfResponses
                          else if xs[n].response.status == StatusOk then LastPage
                          else HttpError(xs[n].response.status))
  {
    var n := PageStopIndex(xs);
    if n < |xs| {
      WalkStopsAt(teams, lookup, xs, n);
    } else {
      WalkNeverStops(teams, lookup, xs);
      assert xs[..n] == xs;
    }
  }

  /** After the seats of page `k` the seats seen so far grow by exactly that page's seats. */
  lemma SeenStep(xs: seq<Exchange>, k: nat)
    requires k < |xs| && PageContinues(xs[k].response)
    ensures SeatsSeen(xs[..k + 1]) == SeatsSeen(xs[..k]) + xs[k].response.seats.value
  {
    var x := xs[k];
    SeatsSeenAppend(xs[..k], [x]);
    assert xs[..k + 1] == xs[..k] + [x];
    assert [x][1..] == [];
    assert SeatsSeen([x]) == x.response.seats.value + SeatsSeen([]);
  }

  /** A walk whose pages all continue it reads every exchange and uses every page's seats. */
  lemma {:induction false} WalkNeverStops(teams: seq<Team>, lookup: string -> UserResponse, xs: seq<Exchange>)
    requires forall j :: 0 <= j < |xs| ==> PageContinues(xs[j].response)
    ensures var w := WalkSeats(teams, lookup, xs);
            && w.requests == |xs|
            && w.rows == PageRows(SeatsSeen(xs), teams, lookup)
            && w.stop == OutOfResponses
    decreases |xs|
  {
    if |xs| > 0 {
      WalkNeverStops(teams, lookup, xs[1..]);
      PageRowsAppend(xs[0].response.seats.value, SeatsSeen(xs[1..]), teams, lookup);
    }
  }

  /** A walk whose first non-continuing page is `k` makes `k + 1` requests and uses the seats before it. */
  lemma {:induction false} WalkStopsAt(teams: seq<Team>, lookup: string -> UserResponse, xs: seq<Exchange>, k: nat)
    requires k < |xs|
    requires forall j :: 0 <= j < k ==> PageContinues(xs[j].response)
    requires !PageContinues(xs[k].response)
    ensures var w := WalkSeats(teams, lookup, xs);
            && w.requests == k + 1
            && w.rows == PageRows(SeatsSeen(xs[..k]), teams, lookup)
            && w.stop == (if xs[k].response.status == StatusOk then LastPage else HttpError(xs[k].response.status))
    decreases k
  {
    if k == 0 {
      assert xs[..0] == [];
    } else {
      var tail := xs[1..];
      assert forall j :: 0 <= j < k - 1 ==> tail[j] == xs[j + 1];
      WalkStopsAt(teams, lookup, tail, k - 1);
      var seats := xs[0].response.seats.value;
      assert WalkSeats(teams, lookup, xs).rows == PageRows(seats, teams, lookup) + WalkSeats(teams, lookup, tail).rows;
      SeenFirst(xs, k);
      PageRowsAppend(seats, SeatsSeen(tail[..k - 1]), teams, lookup);
    }
  }

  /** The seats seen on the first `k` pages are the first page's followed by those of the next `k - 1`. */
  lemma SeenFirst(xs: seq<Exchange>, k: nat)
    requires 0 < k <= |xs| && PageContinues(xs[0].response)
    ensures SeatsSeen(xs[..k]) == xs[0].response.seats.value + SeatsSeen(xs[1..][..k - 1])
  {
    assert xs[..k] == [xs[0]] + xs[1..][..k - 1];
    SeatsSeenAppend([xs[0]], xs[1..][..k - 1]);
    assert [xs[0]][1..] == [];
    assert SeatsSeen([xs[0]]) == xs[0].response.seats.value + SeatsSeen([]);
  }

  /**
   Which pages are requested, the guard's waits and why the walk stopped
   depend on the responses alone: neither the fetched teams nor the profile
   lookup change them, only which rows come out.
   */
  lemma {:induction false} WalkControlIgnoresTeams(
    teams: seq<Team>, lookup: string -> UserResponse,
    teams': seq<Team>, lookup': string -> UserResponse, xs: seq<Exchange>)
    ensures var w := WalkSeats(teams, lookup, xs);
            var w' := WalkSeats(teams', lookup', xs);
            w.requests == w'.requests && w.waits == w'.waits && w.stop == w'.stop
    decreases |xs|
  {
    if |xs| > 0 && PageContinues(xs[0].response) {
      WalkControlIgnoresTeams(teams, lookup, teams', lookup', xs[1..]);
    }
  }

  /** The rate-limit guard sees every response the walk reads, in order. */
  lemma {:induction false} WalkWaits(teams: seq<Team>, lookup: string -> UserResponse, xs: seq<Exchange>)
    ensures var w := WalkSeats(teams, lookup, xs);
            forall k :: 0 <= k < w.requests ==> w.waits[k] == WaitOf(xs[k])
    decreases |xs|
  {
    if |xs| > 0 && PageContinues(xs[0].response) {
      var w := WalkSeats(teams, lookup, xs);
      var rest := WalkSeats(teams, lookup, xs[1..]);
      WalkWaits(teams, lookup, xs[1..]);
      forall k | 0 < k < w.requests
        ensures w.waits[k] == WaitOf(xs[k])
      {
        assert w.waits[k] == rest.waits[k - 1];
        assert xs[k] == xs[1..][k - 1];
      }
    }
  }

  /** No row of a page has an empty username. */
  lemma {:induction false} PageRowsHaveUsernames(seats: seq<Seat>, teams: seq<Team>, lookup: string -> UserResponse)
    ensures forall i :: 0 <= i < |PageRows(seats, teams, lookup)| ==> PageRows(seats, teams, lookup)[i].username != ""
  {
    PageRowsAreAcceptedSeats(seats, teams, lookup);
  }

  /** No row of the walk has an empty username. */
  lemma WalkRowsHaveUsernames(teams: seq<Team>, lookup: string -> UserResponse, xs: seq<Exchange>)
    ensures forall i :: 0 <= i < |WalkSeats(teams, lookup, xs).rows| ==> WalkSeats(teams, lookup, xs).rows[i].username != ""
  {
    WalkSeatsSpec(teams, lookup, xs);
    PageRowsHaveUsernames(SeatsSeen(xs[..PageStopIndex(xs)]), teams, lookup);
  }

  /** At most one row per seat seen. */
  lemma RowCountBound(teams: seq<Team>, lookup: string -> UserResponse, xs: seq<Exchange>)
    ensures |WalkSeats(teams, lookup, xs).rows| <= |SeatsSeen(xs[..PageStopIndex(xs)])|
  {
    WalkSeatsSpec(teams, lookup, xs);
  }

  /** The exchanges after the one the walk stopped on are never read. */
  lemma {:induction false} LaterPagesIgnored(teams: seq<Team>, lookup: string -> UserResponse, xs: seq<Exchange>, xs': seq<Exchange>)
    requires WalkSeats(teams, lookup, xs).stop != OutOfResponses
    requires WalkSeats(teams, lookup, xs).requests <= |xs'|
    requires xs'[..WalkSeats(teams, lookup, xs).requests] == xs[..WalkSeats(teams, lookup, xs).requests]
    ensures WalkSeats(teams, lookup, xs') == WalkSeats(teams, lookup, xs)
    decreases |xs|
  {
    var n := WalkSeats(teams, lookup, xs).requests;
    assert xs'[0] == xs'[..n][0] == xs[..n][0] == xs[0];
    if PageContinues(xs[0].response) {
      var m := WalkSeats(teams, lookup, xs[1..]).requests;
      assert xs'[1..][..m] == xs'[..n][1..] == xs[..n][1..] == xs[1..][..m];
      LaterPagesIgnored(teams, lookup, xs[1..], xs'[1..]);
    }
  }

  /** A failed page keeps the rows of the pages before it. */
  lemma RowsKeptOnError(teams: seq<Team>, lookup: string -> UserResponse, xs: seq<Exchange>, k: nat)
    requires k < |xs|
    requires forall j :: 0 <= j < k ==> PageContinues(xs[j].response)
    requires xs[k].response.status != StatusOk
    ensures WalkSeats(teams, lookup, xs).rows == PageRows(SeatsSeen(xs[..k]), teams, lookup)
    ensures WalkSeats(teams, lookup, xs).stop == HttpError(xs[k].response.status)
    ensures WalkSeats(teams, lookup, xs).requests == k + 1
  {
    WalkStopsAt(teams, lookup, xs, k);
  }

  /**
   The walk written as the source's loop: `page` counts the requests, the
   guard runs on every response, and the loop breaks on an error or on a
   page without seats.
   */
  method WalkSeatsLoop(teams: seq<Team>, lookup: string -> UserResponse, xs: seq<Exchange>)
    returns (rows: seq<Row>, page: nat, waits: seq<Option<nat>>)
    ensures page == WalkSeats(teams, lookup, xs).requests
    ensures rows == WalkSeats(teams, lookup, xs).rows
    ensures waits == WalkSeats(teams, lookup, xs).waits
  {
    rows := [];
    waits := [];
    page := 0;
    var more := true;
    while more && page < |xs|
      invariant page <= |xs|
      invariant |waits| == page
      invariant forall k :: 0 <= k < page ==> waits[k] == WaitOf(xs[k])
      invariant more ==> forall k :: 0 <= k < page ==> PageContinues(xs[k].response)
      invariant more ==> rows == PageRows(SeatsSeen(xs[..page]), teams, lookup)
      invariant !more ==> page == WalkSeats(teams, lookup, xs).requests
      invariant !more ==> rows == WalkSeats(teams, lookup, xs).rows
      decreases |xs| - page
    {
      var x := xs[page];
      waits := waits + [WaitOf(x)];
      if x.response.status == StatusOk && HasSeats(x.response) {
        var seats := x.response.seats.value;
        SeenStep(xs, page);
        PageRowsAppend(SeatsSeen(xs[..page]), seats, teams, lookup);
        rows := rows + PageRows(seats, teams, lookup);
      } else {
        more := false;
        WalkStopsAt(teams, lookup, xs, page);
      }
      page := page + 1;
    }
    if more {
      WalkNeverStops(teams, lookup, xs);
      assert xs[..page] == xs;
    }
    WaitsMatch(teams, lookup, xs, waits);
  }

  lemma WaitsMatch(teams: seq<Team>, lookup: string -> UserResponse, xs: seq<Exchange>, waits: seq<Option<nat>>)
    requires |waits| == WalkSeats(teams, lookup, xs).requests
    requires forall k :: 0 <= k < |waits| ==> waits[k] == WaitOf(xs[k])
    ensures waits == WalkSeats(teams, lookup, xs).waits
  {
    WalkWaits(teams, lookup, xs);
  }
}
