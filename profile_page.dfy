/** The profile page (src/pages/Profile.tsx): the skill list editor and the
    internship-type tag toggles. `userSkills` lives in the user context; the
    page reads and replaces it, so here it is a field of the page. */
module ProfilePage {
  import opened Text
  import opened Seqs

  /** The tag buttons the page renders. */
  const TagOptions: seq<string> := ["Tech", "Remote", "Startup", "Enterprise", "Part-time", "Full-time"]

  /** The skill list and input box after `handleAddSkill`: the trimmed input
      is appended and the box cleared when it is non-blank and not listed yet
      (compared exactly, case included); otherwise both stay as they were. */
  function AddSkill(userSkills: seq<string>, newSkill: string): (seq<string>, string) {
    var skill := Trim(newSkill);
    if skill != "" && skill !in userSkills then (userSkills + [skill], "") else (userSkills, newSkill)
  }

  /** The tag list after clicking `tag`: removed when selected, appended otherwise. */
  function Toggled(selectedTags: seq<string>, tag: string): seq<string> {
    if tag in selectedTags then RemoveAll(selectedTags, tag) else selectedTags + [tag]
  }

  /** What adding does: listed afterwards are the old skills and, when it was
      accepted, the trimmed input, which then has no space at either end. */
  lemma AddSkillEffect(userSkills: seq<string>, newSkill: string)
    ensures var (skills, input) := AddSkill(userSkills, newSkill);
      var added := Trim(newSkill) != "" && Trim(newSkill) !in userSkills;
      && (added ==> skills == userSkills + [Trim(newSkill)] && input == "")
      && (!added ==> skills == userSkills && input == newSkill)
      && (forall x :: x in skills <==> x in userSkills || (added && x == Trim(newSkill)))
      && (added ==> !IsSpace(skills[|skills| - 1][0]) && !IsSpace(skills[|skills| - 1][|Trim(newSkill)| - 1]))
  {
  }

  /** A blank input never changes the list. */
  lemma AddBlankSkill(userSkills: seq<string>, newSkill: string)
    requires forall k :: 0 <= k < |newSkill| ==> IsSpace(newSkill[k])
    ensures AddSkill(userSkills, newSkill) == (userSkills, newSkill)
  {
    TrimEmptyIffBlank(newSkill);
  }

  /** Adding keeps a list without duplicates free of duplicates. */
  lemma AddSkillKeepsDistinct(userSkills: seq<string>, newSkill: string)
    requires Distinct(userSkills)
    ensures Distinct(AddSkill(userSkills, newSkill).0)
  {
  }

  /** Adding the same input twice in a row adds it once. */
  lemma AddSkillTwice(userSkills: seq<string>, newSkill: string)
    ensures var (skills, _) := AddSkill(userSkills, newSkill);
      AddSkill(skills, newSkill).0 == skills
  {
  }

  /** Removing deletes every entry equal to the argument and keeps the rest in order. */
  lemma RemoveSkillEffect(userSkills: seq<string>, skill: string)
    ensures skill !in RemoveAll(userSkills, skill)
    ensures forall x :: x != skill ==> multiset(RemoveAll(userSkills, skill))[x] == multiset(userSkills)[x]
    ensures IsSubsequence(RemoveAll(userSkills, skill), userSkills)
    ensures Distinct(userSkills) ==> Distinct(RemoveAll(userSkills, skill))
  {
    RemoveAllSubsequence(userSkills, skill);
    if Distinct(userSkills) {
      RemoveAllDistinct(userSkills, skill);
    }
  }

  /** A toggle flips the clicked tag's membership and no other tag's. */
  lemma ToggledMembership(selectedTags: seq<string>, tag: string)
    ensures tag in Toggled(selectedTags, tag) <==> tag !in selectedTags
    ensures forall t :: t != tag ==> (t in Toggled(selectedTags, tag) <==> t in selectedTags)
    ensures forall t :: t != tag ==> multiset(Toggled(selectedTags, tag))[t] == multiset(selectedTags)[t]
  {
  }

  /** Clicking rendered buttons only ever selects rendered tags, each at most once. */
  lemma ToggledKeepsOptions(selectedTags: seq<string>, tag: string)
    requires forall t :: t in selectedTags ==> t in TagOptions
    requires Distinct(selectedTags)
    requires tag in TagOptions
    ensures forall t :: t in Toggled(selectedTags, tag) ==> t in TagOptions
    ensures Distinct(Toggled(selectedTags, tag))
  {
    if tag in selectedTags {
      RemoveAllDistinct(selectedTags, tag);
    }
  }

  /** Selecting an unselected tag and clicking it again restores the list. */
  lemma ToggleTwice(selectedTags: seq<string>, tag: string)
    requires tag !in selectedTags
    ensures Toggled(Toggled(selectedTags, tag), tag) == selectedTags
  {
    RemoveAllSnocAbsent(selectedTags, tag);
  }

  /** The page's editable state. */
  class ProfilePage {
    var userSkills: seq<string>
    var newSkill: string
    var selectedTags: seq<string>

    constructor (skills: seq<string>)
      ensures userSkills == skills && newSkill == "" && selectedTags == ["Tech", "Remote"]
    {
      userSkills := skills;
      newSkill := "";
      selectedTags := ["Tech", "Remote"];
    }

    /** The input box's change handler (`setNewSkill`). */
    method SetNewSkill(value: string)
      modifies this
      ensures newSkill == value
      ensures userSkills == old(userSkills) && selectedTags == old(selectedTags)
    {
      newSkill := value;
    }

    method HandleAddSkill()
      modifies this
      ensures (userSkills, newSkill) == AddSkill(old(userSkills), old(newSkill))
      ensures selectedTags == old(selectedTags)
    {
      var (skills, input) := AddSkill(userSkills, newSkill);
      userSkills, newSkill := skills, input;
    }

    method HandleRemoveSkill(skillToRemove: string)
      modifies this
      ensures userSkills == RemoveAll(old(userSkills), skillToRemove)
      ensures newSkill == old(newSkill) && selectedTags == old(selectedTags)
    {
      userSkills := RemoveAll(userSkills, skillToRemove);
    }

    /** The click handler of a tag button. */
    method ToggleTag(tag: string)
      modifies this
      ensures selectedTags == Toggled(old(selectedTags), tag)
      ensures userSkills == old(userSkills) && newSkill == old(newSkill)
    {
      if tag in selectedTags {
        selectedTags := RemoveAll(selectedTags, tag);
      } else {
        selectedTags := selectedTags + [tag];
      }
    }
  }
}
