/**
 The per-user profile lookup (team.py:41-56): one response for one
 username, degraded to an (email, created_at) pair that never fails.
 */
module UserDetails {
  import opened Values

  /** The response to `GET /users/{username}`; the two fields are read only on a 200. */
  datatype UserResponse = UserResponse(status: int, email: Field, createdAt: Field)

  datatype Details = Details(email: string, createdAt: string)

  function GetUserDetails(r: UserResponse): (d: Details)
    // no field of the result is ever empty, whatever the status
    ensures d.email != "" && d.createdAt != ""
    // a failed lookup yields only sentinels
    ensures r.status != StatusOk ==> d == Details(NA, NA)
    // a successful lookup keeps every non-empty value and degrades only the falsy ones
    ensures r.status == StatusOk && Truthy(r.email) ==> d.email == r.email.text
    ensures r.status == StatusOk && Truthy(r.createdAt) ==> d.createdAt == r.createdAt.text
    ensures r.status == StatusOk && !Truthy(r.email) ==> d.email == NA
    ensures r.status == StatusOk && !Truthy(r.createdAt) ==> d.createdAt == NA
  {
    if r.status == StatusOk then Details(OrNA(r.email), OrNA(r.createdAt))
    else Details(NA, NA)
  }

  /** A field other than "N/A" in the result was really returned by a successful lookup. */
  lemma DetailsComeFromSuccess(r: UserResponse)
    ensures GetUserDetails(r).email != NA ==> r.status == StatusOk && r.email == Str(GetUserDetails(r).email)
    ensures GetUserDetails(r).createdAt != NA ==> r.status == StatusOk && r.createdAt == Str(GetUserDetails(r).createdAt)
  {
  }
}
