/** The join-organisation page: its field handling and the request body
    `handleSubmit` sends to the join route. The slug field applies
    `Slug.Slugify` to what is typed; the organisation name and the team
    name are kept exactly as typed. */
module JoinOrganizationPage {
  import opened Common
  import opened Slug
  import opened JoinOrganizationRoute

  /** What `handleSubmit` posts, or nothing when it stops early: name and
      slug must both be non-empty, then the team name must be non-empty.
      The three fields are sent unchanged. */
  function Submission(orgName: string, orgSlug: string, teamName: string): (b: Option<JoinBody>)
    ensures b.Some? <==> orgName != "" && orgSlug != "" && teamName != ""
    ensures b.Some? ==> b.value.name == Some(orgName) && b.value.slug == Some(orgSlug) && b.value.teamName == Some(teamName)
  {
    if orgName == "" || orgSlug == "" then None
    else if teamName == "" then None
    else Some(JoinBody(Some(orgName), Some(orgSlug), Some(teamName)))
  }

  /** A body the page submits passes the join route's input guards, and
      its slug is normalised when it came from the slug field. */
  lemma SubmissionPassesGuards(orgName: string, typedSlug: string, teamName: string)
    requires Submission(orgName, Slugify(typedSlug), teamName).Some?
    ensures var b := Submission(orgName, Slugify(typedSlug), teamName).value;
            Present(b.name) && Present(b.slug) && Present(b.teamName) && IsSlug(b.slug.value)
  {
  }
}
