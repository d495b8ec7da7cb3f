/**
 The script's top level (team.py:160-167): fetch the teams, then walk the
 billing seats against them; the rows are what the CSV file receives.
 */
module Report {
  import opened Values
  import opened EditorActivity
  import opened UserDetails
  import opened Teams
  import opened BillingSeats

  function BuildReport(teamResponses: seq<TeamResponse>, lookup: string -> UserResponse, seatExchanges: seq<Exchange>): (rows: seq<Row>)
    // no row has an empty username
    ensures forall i :: 0 <= i < |rows| ==> rows[i].username != ""
    // at most one row per seat on the pages the seat walk consumed
    ensures |rows| <= |SeatsSeen(seatExchanges[..PageStopIndex(seatExchanges)])|
  {
    var teams := FetchTeams(teamResponses).teams;
    RowCountBound(teams, lookup, seatExchanges);
    WalkRowsHaveUsernames(teams, lookup, seatExchanges);
    WalkSeats(teams, lookup, seatExchanges).rows
  }

  /**
   When the very first team request fails there are no team names to match,
   so the report is empty; the seat pages are still requested, up to the
   first one that ends the walk, exactly as with any other teams.
   */
  lemma FailedTeamFetchGivesEmptyReport(
    teamResponses: seq<TeamResponse>, lookup: string -> UserResponse, seatExchanges: seq<Exchange>,
    otherTeams: seq<Team>)
    requires |teamResponses| > 0 && teamResponses[0].status != StatusOk
    ensures BuildReport(teamResponses, lookup, seatExchanges) == []
    ensures var w := WalkSeats(FetchTeams(teamResponses).teams, lookup, seatExchanges);
            var n := PageStopIndex(seatExchanges);
            && w.requests == (if n < |seatExchanges| then n + 1 else |seatExchanges|)
            && w.requests == WalkSeats(otherTeams, lookup, seatExchanges).requests
  {
    var n := PageStopIndex(seatExchanges);
    WalkSeatsSpec([], lookup, seatExchanges);
    NoTeamsNoRows(SeatsSeen(seatExchanges[..n]), lookup);
    WalkControlIgnoresTeams([], lookup, otherTeams, lookup, seatExchanges);
  }

  /** How a fetched team's name appears as a seat's assigning-team name: null stays null. */
  function NameField(name: Option<string>): Field {
    match name
    case Some(n) => Str(n)
    case None => Null
  }

  /**
   One team, one seat assigned through it with full editor activity, and a
   successful profile lookup give exactly one fully populated row: the
   login, slug, profile fields, activity time and the four editor fields
   pass through unchanged.
   */
  lemma SingleSeatReport(
    team: TeamEntry, login: string, slug: string, at: string, editor: EditorFields,
    email: string, createdAt: string, lookup: string -> UserResponse, last: Exchange)
    requires login != "" && slug != "" && at != "" && email != "" && createdAt != ""
    requires SeparatorFree(editor)
    requires lookup(login) == UserResponse(StatusOk, Str(email), Str(createdAt))
    requires last.response.status == StatusOk && last.response.seats == Some([])
    ensures
      var teamPage := TeamResponse(StatusOk, [team], None);
      var seat := Seat(Some(Assignee(Str(login))), Some(AssigningTeam(NameField(team.name), Str(slug))),
                       Str(at), Str(Encode(editor)));
      var seatPage := SeatResponse(StatusOk, last.response.headers, Some([seat]));
      BuildReport([teamPage], lookup, [Exchange(seatPage, last.now), last])
        == [Row(login, slug, email, createdAt, at,
                editor.editor, editor.editorVersion, editor.plugin, editor.pluginVersion)]
  {
    var teamPage := TeamResponse(StatusOk, [team], None);
    var seat := Seat(Some(Assignee(Str(login))), Some(AssigningTeam(NameField(team.name), Str(slug))),
                     Str(at), Str(Encode(editor)));
    var seatPage := SeatResponse(StatusOk, last.response.headers, Some([seat]));
    var xs := [Exchange(seatPage, last.now), last];
    var teams := [Keep(team)];
    var row := Row(login, slug, email, createdAt, at,
                   editor.editor, editor.editorVersion, editor.plugin, editor.pluginVersion);
    assert FetchTeams([teamPage]).teams == teams;
    DecodeEncode(editor);
    assert BuildRow(seat, lookup) == row;
    assert TeamNames(teams) == [team.name];
    assert Accepted(seat, teams);
    assert PageRows([seat], teams, lookup) == [row];
    assert xs[1..] == [last];
    assert WalkSeats(teams, lookup, [last]).rows == [];
  }
}
