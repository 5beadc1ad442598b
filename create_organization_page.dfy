/** The create-organisation page: the form state, its list editing, and
    the request body `handleSubmit` sends to the creation route. */
module CreateOrganizationPage {
  import opened Common
  import opened Slug
  import opened CreateOrganizationRoute

  /** `xs.filter((_, i) => i !== index)`: every element but the one at
      `index`; an index past the end removes nothing. */
  function RemoveAt<T>(xs: seq<T>, index: nat): (r: seq<T>)
    ensures |r| == if index < |xs| then |xs| - 1 else |xs|
    ensures forall k :: 0 <= k < |r| ==> r[k] == if k < index then xs[k] else xs[k + 1]
  {
    if index < |xs| then xs[..index] + xs[index + 1..] else xs
  }

  /** `xs.filter(x => x.trim() !== '')`: the entries that are not blank, in
      their order and with their text as typed (untrimmed). */
  function NonBlank(xs: seq<string>): (r: seq<string>)
    ensures forall s :: s in r <==> s in xs && !IsBlank(s)
    ensures |r| <= |xs|
    decreases |xs|
  {
    if xs == [] then []
    else (if IsBlank(xs[0]) then [] else [xs[0]]) + NonBlank(xs[1..])
  }

  /** Filtering works entry by entry, so the kept entries stay in order. */
  lemma {:induction false} NonBlankAppend(xs: seq<string>, ys: seq<string>)
    ensures NonBlank(xs + ys) == NonBlank(xs) + NonBlank(ys)
    decreases |xs|
  {
    if xs == [] {
      assert xs + ys == ys;
    } else {
      assert (xs + ys)[0] == xs[0];
      assert (xs + ys)[1..] == xs[1..] + ys;
      NonBlankAppend(xs[1..], ys);
    }
  }

  /** The status every service the page submits carries. */
  const DemoStatus: string := "Operational"

  /** `filteredServices.map(name => ({ name, status: 'Operational' }))`. */
  function ServiceEntries(names: seq<string>): (r: seq<ServiceInput>)
    ensures |r| == |names|
    ensures forall k :: 0 <= k < |r| ==> r[k] == ServiceInput(Some(names[k]), Some(DemoStatus))
  {
    seq(|names|, k requires 0 <= k < |names| => ServiceInput(Some(names[k]), Some(DemoStatus)))
  }

  /** `filteredTeams.map(name => ({ name }))`. */
  function TeamEntries(names: seq<string>): (r: seq<TeamInput>)
    ensures |r| == |names|
    ensures forall k :: 0 <= k < |r| ==> r[k] == TeamInput(Some(names[k]))
  {
    seq(|names|, k requires 0 <= k < |names| => TeamInput(Some(names[k])))
  }

  /** The form's state. The slug field only ever holds a normalised slug,
      and neither list is ever empty. */
  class CreateOrganizationForm {
    var orgName: string
    var orgSlug: string
    var demoServices: seq<string>
    var teams: seq<string>

    ghost predicate Valid()
      reads this
    {
      IsSlug(orgSlug) && |demoServices| > 0 && |teams| > 0
    }

    /** Empty name and slug, one empty service entry and one empty team entry. */
    constructor ()
      ensures Valid()
      ensures orgName == "" && orgSlug == "" && demoServices == [""] && teams == [""]
    {
      orgName, orgSlug, demoServices, teams := "", "", [""], [""];
    }

    /** Typing a name also regenerates the slug from it. */
    method HandleOrgNameChange(name: string)
      requires Valid()
      modifies this
      ensures Valid()
      ensures orgName == name && orgSlug == Slugify(name)
      ensures demoServices == old(demoServices) && teams == old(teams)
    {
      orgName, orgSlug := name, Slugify(name);
    }

    /** Typing into the slug field stores the normalised text. */
    method HandleOrgSlugChange(value: string)
      requires Valid()
      modifies this
      ensures Valid()
      ensures orgSlug == Slugify(value)
      ensures orgName == old(orgName) && demoServices == old(demoServices) && teams == old(teams)
    {
      orgSlug := Slugify(value);
    }

    /** Edits service entry `index` only; the list keeps its length. */
    method HandleServiceChange(index: nat, value: string)
      requires Valid() && index < |demoServices|
      modifies this
      ensures Valid()
      ensures demoServices == old(demoServices)[index := value]
      ensures orgName == old(orgName) && orgSlug == old(orgSlug) && teams == old(teams)
    {
      var updated := demoServices;
      updated := updated[index := value];
      demoServices := updated;
    }

    /** Edits team entry `index` only; the list keeps its length. */
    method HandleTeamChange(index: nat, value: string)
      requires Valid() && index < |teams|
      modifies this
      ensures Valid()
      ensures teams == old(teams)[index := value]
      ensures orgName == old(orgName) && orgSlug == old(orgSlug) && demoServices == old(demoServices)
    {
      var updated := teams;
      updated := updated[index := value];
      teams := updated;
    }

    /** Appends one empty service entry. */
    method AddService()
      requires Valid()
      modifies this
      ensures Valid()
      ensures demoServices == old(demoServices) + [""]
      ensures orgName == old(orgName) && orgSlug == old(orgSlug) && teams == old(teams)
    {
      demoServices := demoServices + [""];
    }

    /** Appends one empty team entry. */
    method AddTeam()
      requires Valid()
      modifies this
      ensures Valid()
      ensures teams == old(teams) + [""]
      ensures orgName == old(orgName) && orgSlug == old(orgSlug) && demoServices == old(demoServices)
    {
      teams := teams + [""];
    }

    /** Removes service entry `index`, but never the last remaining entry. */
    method RemoveService(index: nat)
      requires Valid()
      modifies this
      ensures Valid()
      ensures demoServices == if |old(demoServices)| > 1 then RemoveAt(old(demoServices), index) else old(demoServices)
      ensures orgName == old(orgName) && orgSlug == old(orgSlug) && teams == old(teams)
    {
      if |demoServices| > 1 {
        demoServices := RemoveAt(demoServices, index);
      }
    }

    /** Removes team entry `index`, but never the last remaining entry. */
    method RemoveTeam(index: nat)
      requires Valid()
      modifies this
      ensures Valid()
      ensures teams == if |old(teams)| > 1 then RemoveAt(old(teams), index) else old(teams)
      ensures orgName == old(orgName) && orgSlug == old(orgSlug) && demoServices == old(demoServices)
    {
      if |teams| > 1 {
        teams := RemoveAt(teams, index);
      }
    }

    /** What `handleSubmit` posts, or nothing when it stops early: the name
        and slug must be non-empty, and at least one service and one team
        entry must be non-blank. Blank entries are dropped; the others are
        sent as typed and in order, every service with status `Operational`. */
    function Submission(): (b: Option<CreateOrgBody>)
      reads this
      ensures b.Some? <==> orgName != "" && orgSlug != "" && NonBlank(demoServices) != [] && NonBlank(teams) != []
      ensures b.Some? ==>
                && b.value.name == Some(orgName) && b.value.slug == Some(orgSlug)
                && b.value.services.Some? && b.value.teams.Some?
                && |b.value.services.value| == |NonBlank(demoServices)|
                && (forall k :: 0 <= k < |b.value.services.value| ==>
                      b.value.services.value[k] == ServiceInput(Some(NonBlank(demoServices)[k]), Some(DemoStatus)))
                && |b.value.teams.value| == |NonBlank(teams)|
                && (forall k :: 0 <= k < |b.value.teams.value| ==>
                      b.value.teams.value[k] == TeamInput(Some(NonBlank(teams)[k])))
    {
      if orgName == "" || orgSlug == "" then None
      else
        var services, teamNames := NonBlank(demoServices), NonBlank(teams);
        if services == [] || teamNames == [] then None
        else Some(CreateOrgBody(Some(orgName), Some(orgSlug), Some(ServiceEntries(services)), Some(TeamEntries(teamNames))))
    }
  }

  /** A body the page submits passes every validation guard of the
      creation route, and every service row in it can be inserted with one
      of the four valid statuses. */
  lemma SubmissionPassesGuards(f: CreateOrganizationForm)
    requires f.Submission().Some?
    ensures var b := f.Submission().value;
            && WellFormed(b) && ServicesWritable(b.services.value)
            && forall k :: 0 <= k < |b.services.value| ==> IsValidStatus(b.services.value[k].status.value)
  {
    assert DemoStatus == ValidStatuses[0];
  }

  /** The page does not look for repeated team names: two non-blank
      entries with the same text are both submitted, and then the
      creation route's transaction cannot commit (the team names of one
      organisation are unique), so the request ends with 500. */
  lemma RepeatedTeamNotWritable(f: CreateOrganizationForm, j: nat, k: nat)
    requires j < k < |NonBlank(f.teams)| && NonBlank(f.teams)[j] == NonBlank(f.teams)[k]
    requires f.Submission().Some?
    ensures !TeamsWritable(f.Submission().value.teams.value)
  {
    var ts := f.Submission().value.teams.value;
    assert ts[j].name == ts[k].name;
  }
}
