# Copilot billing-seat report — a Dafny model of `team.py`

`team.py` builds a report of GitHub Copilot licence holders in an
enterprise. It walks the enterprise's team pages, then walks the numbered
Copilot billing-seat pages. It keeps each seat whose assigning team is one
of the fetched teams. For each such seat it looks up the user's profile,
decodes the last-used-editor string, and emits one report row.

This project models that decision logic as pure Dafny functions over
abstract HTTP responses:

- `values.dfy` — `Option`, the three-state JSON field (`Missing`, `Null`,
  `Str`), Python truthiness, the `value or 'N/A'` idiom, and why a walk stopped.
- `strings.dfy` — Python's `str.split('/')`, with its inverse `join`.
  It never returns an empty list and it keeps empty segments.
- `editor.dfy` — the `last_activity_editor` decoder.
- `rate_limit.dfy` — the rate-limit guard. It returns the sleep duration
  instead of sleeping.
- `user_details.dfy` — the profile lookup, degraded to `(email, created_at)`.
- `teams.dfy` — the team walk that follows `next` links. It has a
  functional fold and the source's loop, and the two are proved equal.
- `seats.dfy` — the seat filter, the row builder and the seat-page walk.
  The fold and the loop are proved equal here too.
- `report.dfy` — the top level: teams first, then seats.

Modelling conventions:

- A paginated walk reads a sequence of responses. The k-th response
  answers the k-th request. If the sequence runs out while the walk would
  still ask for a page, the walk stops with `OutOfResponses`.
- The seat walk's k-th exchange answers the request for page k + 1. It
  also carries the clock second at which the rate-limit guard read it.
- The per-user request is a parameter `lookup: string -> UserResponse`.
- A field read with `.get(k) or 'N/A'` treats missing, null and `""` alike.
  A field read with `.get(k, 'N/A')` falls back only when the key is
  missing. That matters for the assigning team's name (team.py:94): a
  seat with no team name matches a team literally named "N/A". A seat
  whose name is null matches only a fetched team whose own name is null,
  because team.py:31 keeps a null team name as it is.

A missing editor string does not decode to four "N/A" fields. The code
substitutes the text "N/A" first and then splits it (team.py:105-109). So
a seat without editor activity gets editor "N", version "A", plugin "N/A"
and plugin version "N/A". The `'N/A'` fallback for the first field
(team.py:110) can never fire, because a split never yields zero parts.

## Model

| member | source | states |
|---|---|---|
| Strings.Split | team.py:109 | `str.split` always yields at least one part |
| Strings.JoinSplit | team.py:109 | joining the parts of a split with the separator gives back the original string |
| Strings.SplitJoin | team.py:109 | splitting a join of separator-free parts gives back exactly those parts |
| Strings.SplitAtSeparator | team.py:109 | splitting `a + "/" + b` is splitting `a` followed by splitting `b` |
| EditorActivity.DecodeEditor | team.py:105-113 | a missing, null or empty editor decodes to "N", "A", "N/A", "N/A"; a value without `/` is all editor, with "N/A" in the other three fields |
| EditorActivity.DecodeSegments | team.py:109-113 | a non-empty editor string built from separator-free segments decodes to segments 0-3, with "N/A" past the last segment |
| EditorActivity.DecodeEncode | team.py:109-113 | round trip: four separator-free fields written as `e/v/p/pv` decode back to the same four fields |
| EditorActivity.DecodeIgnoresExtraSegments | team.py:109-113 | segments beyond the fourth do not change the decoded fields |
| EditorActivity.FirstFieldIsPrefix | team.py:109-110 | the first field always comes from the split: it is the text up to the first `/`, or the whole text when there is no `/` |
| RateLimit.RateLimitWait | team.py:58-66 | the guard waits exactly when the remaining quota is 0, and a missing header counts as 0; the wait is at least 1 second, ends after the reset second, and is the shortest such wait (`max(reset - now, 0) + 1`) |
| RateLimit.MissingHeadersWaitOneSecond | team.py:60-66 | without either header the guard always waits exactly one second |
| RateLimit.ExhaustedQuotaWaitsPastReset | team.py:63-66 | with the quota exhausted and the reset k seconds ahead, the wait is k + 1 seconds |
| RateLimit.StaleResetWaitsOneSecond | team.py:63-66 | a reset time already past still costs the one-second buffer |
| UserDetails.GetUserDetails | team.py:49-56 | never fails and never yields an empty field; a non-200 gives ("N/A", "N/A"); on a 200 each non-empty value is kept and each falsy one becomes "N/A" |
| UserDetails.DetailsComeFromSuccess | team.py:49-56 | any field other than "N/A" was returned verbatim by a successful lookup |
| Teams.FetchTeams | team.py:26-39 | at most one request per response; at least one request when a response exists; the walk runs out of responses exactly when every response asked for a next page |
| Teams.FetchTeamsSpec | team.py:27-37 | the walk makes one request per response that is a 200 with a `next` link, plus the response it stops on; it returns `{id, name}` of the 200 pages among them, in order; it stops on a missing link or on the first non-200 |
| Teams.TeamWalkNeverStops | team.py:27-34 | if every response is a 200 with a `next` link, the walk reads every response and keeps every page's teams |
| Teams.TeamWalkStopsAt | team.py:27-37 | if response k is the first non-200 or the first without a `next` link, the walk makes k + 1 requests and keeps the teams before it, plus response k's own teams when it is a 200 |
| Teams.PartialResultOnError | team.py:35-39 | on the first non-200 the walk returns the teams of the earlier pages and reports that status |
| Teams.LaterResponsesIgnored | team.py:27-37 | responses after the one the walk stopped on never change its result |
| Teams.FetchTeamsLoop | team.py:26-39 | the source's `while url:` loop returns the same teams and makes the same number of requests as the fold |
| BillingSeats.BuildRow | team.py:97-128 | the username is the assignee's login; a falsy slug or activity time becomes "N/A" and a present one is kept; the email and creation date are the profile lookup's verdict for that login, "N/A" on a failed lookup and the returned values on a 200; the four editor fields are the decoded activity string, and "N", "A", "N/A", "N/A" without editor activity |
| BillingSeats.RowFor | team.py:91-97 | a seat yields a row exactly when its team-match name equals some fetched team's name and its login is a non-empty string; the row's username is that login |
| BillingSeats.TeamNameDefault | team.py:92-96 | a seat with no assigning team or no team `name` key yields a row exactly when some fetched team is named "N/A" (and the login is non-empty); a seat whose team name is null yields one exactly when some fetched team's name is null |
| BillingSeats.PageRows | team.py:91-128 | a page gives at most one row per seat |
| BillingSeats.PageRowsHaveUsernames | team.py:96-97 | no row of a page has an empty username |
| BillingSeats.PageRowsAreAcceptedSeats | team.py:91-128 | a page's rows are, one for one and in order, the rows built from its accepted seats |
| BillingSeats.PageRowsMembership | team.py:91-128 | every accepted seat's row is among the page's rows, and every row was built from an accepted seat of the page |
| BillingSeats.PageRowsAppend | team.py:91-128 | rows follow seat order: the rows of `a + b` are the rows of `a` followed by those of `b` |
| BillingSeats.RowsDependOnTeamNamesOnly | team.py:96 | only the set of fetched team names matters, so teams that share a name, or a repeated team, still give one row per seat |
| BillingSeats.NoTeamsNoRows | team.py:96 | with no fetched teams, no seat yields a row |
| BillingSeats.WalkSeats | team.py:78-135 | the rate-limit guard runs exactly once per request, the first time on the first response; at most one request per exchange, and at least one when an exchange exists |
| BillingSeats.WalkControlIgnoresTeams | team.py:78-89 | the pages requested, the guard's waits and the reason the walk stopped do not depend on the fetched teams or the profile lookup |
| BillingSeats.WalkWaits | team.py:81-82 | the k-th wait is the guard's verdict on the k-th response, for every request the walk makes |
| BillingSeats.WalkRowsHaveUsernames | team.py:96-97 | no row of the walk has an empty username |
| BillingSeats.WalkNeverStops | team.py:78-91 | if every page is a 200 with seats, the walk reads every exchange and uses every page's seats |
| BillingSeats.WalkStopsAt | team.py:84-89 | if page k is the first that is non-200 or has no seats, the walk makes k + 1 requests and uses the seats of the k pages before it |
| BillingSeats.WalkSeatsSpec | team.py:78-135 | the walk requests pages up to the first that is non-200 or has no seats; its rows are those of the seats on the earlier pages, in page order and then seat order; it reports why it stopped |
| BillingSeats.RowCountBound | team.py:91-128 | the walk emits at most one row per seat seen |
| BillingSeats.LaterPagesIgnored | team.py:78-89 | pages after the one the walk stopped on never change its result |
| BillingSeats.RowsKeptOnError | team.py:130-135 | a failed page ends the walk, and the rows of the earlier pages are kept |
| BillingSeats.WalkSeatsLoop | team.py:75-135 | the source's page-numbered loop returns the same rows, request count and waits as the fold |
| Report.BuildReport | team.py:160-162 | the report has no row with an empty username, and at most one row per seat on the pages the seat walk consumed |
| Report.FailedTeamFetchGivesEmptyReport | team.py:161-162 | if the first team request fails, the report is empty; the seat walk still requests every page up to the first one that ends it, as many as it would with any other teams |
| Report.SingleSeatReport | team.py:91-128 | one team, one seat assigned through it with full editor activity, and a successful lookup give exactly one row, with every field passed through |

## Left out

- HTTP requests, URL and query construction, authentication headers and
  JSON decoding. These are foreign I/O. Responses are abstract datatypes,
  and a `next` link is only "present and non-empty" or not.
- Loading `.env`, reading environment variables, and all logging. These
  are environment side effects with no effect on the results.
- `time.sleep` and the fractional part of `time.time()`. The clock is a
  whole number of seconds. The guard returns its sleep duration instead
  of blocking.
- `save_to_csv` (team.py:137-157) is file I/O. Only its column list is
  recorded, as `BillingSeats.Columns`.
- The `isinstance(seats_info, str)` branch (team.py:163) is dead: the seat
  walk always returns a list.
- An `assigning_team` that is present but JSON null makes the source
  raise at team.py:94. An `assignee` that is present but JSON null makes
  it raise at team.py:96, but only when the team name matched; otherwise
  the seat is skipped. The model cannot express either seat: each object
  is present or absent.
- Rate-limit headers whose text is not an integer make `int(...)` raise at
  team.py:60-61. The model takes the headers as already-parsed integers.
- Team objects without an `id` or `name` make the source raise at
  team.py:31. The model takes both as always present.
- Non-string values in string fields, such as a numeric email or editor
  value, are not modelled.
- A walk that never stops in the source, because the upstream keeps
  returning continuing pages, is seen only through finite prefixes. The
  model ends such a walk with `OutOfResponses`.
- The profile lookup is a function of the username. Two lookups of the same
  user therefore get the same response, which the source does not
  guarantee.
