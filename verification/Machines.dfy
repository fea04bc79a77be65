/**
 Machines of the machine database (MDB), how two of them are compared and how one absorbs
 another. A missing list or tag map (nil in Go) is None.
 */
module Machines {
  import opened Basics

  type Tags = map<string, string>

  datatype AwsMetadata = AwsMetadata(
    accountId: string, accountName: string, instanceId: string, region: string, tags: Tags)

  datatype Machine = Machine(
    hostname: string,
    dataSourceIdentifier: string,
    dataSourceType: string,
    ipAddress: string,
    location: string,
    requiredImage: string,
    plannedImage: string,
    disableUpdates: bool,
    ownerGroup: string,
    ownerGroups: Option<seq<string>>,
    ownerUsers: Option<seq<string>>,
    tags: Option<Tags>,
    awsMetadata: Option<AwsMetadata>)

  function Items(l: Option<seq<string>>): seq<string> {
    if l.None? then [] else l.value
  }

  function TagsOf(t: Option<Tags>): Tags {
    if t.None? then map[] else t.value
  }

  /** Equally many tags, and what the left side has a lookup on the right side gives back. */
  predicate CompareTags(left: Tags, right: Tags) {
    |left| == |right| && forall k :: k in left ==> Lookup(right, k) == left[k]
  }

  predicate CompareAws(left: AwsMetadata, right: AwsMetadata) {
    && left.(tags := map[]) == right.(tags := map[])
    && CompareTags(left.tags, right.tags)
  }

  /** A machine without its tags, missing lists counting as empty. */
  function Bare(m: Machine): Machine {
    m.(ownerGroups := Some(Items(m.ownerGroups)), ownerUsers := Some(Items(m.ownerUsers)), tags := None,
       awsMetadata := if m.awsMetadata.None? then None else Some(m.awsMetadata.value.(tags := map[])))
  }

  predicate Compare(left: Machine, right: Machine) {
    && Bare(left) == Bare(right)
    && CompareTags(TagsOf(left.tags), TagsOf(right.tags))
    && (left.awsMetadata.Some? ==> CompareAws(left.awsMetadata.value, right.awsMetadata.value))
  }

  /** What a client sees of a machine: only the difference between a missing and an empty list or map is lost. */
  function Wire(m: Machine): Machine {
    m.(ownerGroups := if Items(m.ownerGroups) == [] then None else m.ownerGroups,
       ownerUsers := if Items(m.ownerUsers) == [] then None else m.ownerUsers,
       tags := if TagsOf(m.tags) == map[] then None else m.tags)
  }

  lemma NothingElseIsLost(m: Machine)
    ensures Items(Wire(m).ownerGroups) == Items(m.ownerGroups) && Items(Wire(m).ownerUsers) == Items(m.ownerUsers)
    ensures TagsOf(Wire(m).tags) == TagsOf(m.tags)
    ensures Wire(m).(ownerGroups := m.ownerGroups, ownerUsers := m.ownerUsers, tags := m.tags) == m
  {
  }

  function AwsTags(m: Machine): Tags {
    if m.awsMetadata.None? then map[] else m.awsMetadata.value.tags
  }

  lemma SameOnTheWire(left: Machine, right: Machine)
    ensures Wire(left) == Wire(right) <==>
      && Bare(left) == Bare(right)
      && TagsOf(left.tags) == TagsOf(right.tags)
      && AwsTags(left) == AwsTags(right)
  {
  }

  // ---------------------------------------------------------------- When comparing goes wrong

  /** The left tags differ from the right ones only by blank tags that the right side lacks. */
  ghost predicate Hides(left: Tags, right: Tags) {
    && |left| == |right|
    && left != right
    && forall k :: k in left ==> if k in right then right[k] == left[k] else left[k] == ""
  }

  /** Tag comparison is equality, except that it also accepts tags hidden by blank values. */
  lemma CompareTagsExactly(left: Tags, right: Tags)
    ensures CompareTags(left, right) <==> left == right || Hides(left, right)
  {
  }

  /** Hiding takes a blank tag: without one, tag comparison is equality. */
  lemma HidingTakesABlankTag(left: Tags, right: Tags)
    requires Hides(left, right)
    ensures exists k :: k in left && k !in right && left[k] == ""
    ensures exists k :: k in right && k !in left
  {
    if left.Keys <= right.Keys {
      SubsetIsSmaller(left.Keys, right.Keys);
    }
    if right.Keys <= left.Keys {
      SubsetIsSmaller(right.Keys, left.Keys);
    }
  }

  /** The right side has a tag with a value that the left side lacks. */
  ghost predicate LacksValue(left: Tags, right: Tags) {
    exists k :: k in right && k !in left && right[k] != ""
  }

  /** Tag comparison that succeeds one way fails the other way exactly if the first side lacks a value. */
  lemma CompareTagsIsSymmetricIff(left: Tags, right: Tags)
    requires CompareTags(left, right)
    ensures !CompareTags(right, left) <==> LacksValue(left, right)
  {
  }

  ghost predicate SameOrHides(left: Tags, right: Tags) {
    left == right || Hides(left, right)
  }

  /** Alike but for tags, which differ at most by blank ones of the left, and the left lacks a value of the right. */
  ghost predicate OneSided(left: Machine, right: Machine) {
    && Bare(left) == Bare(right)
    && SameOrHides(TagsOf(left.tags), TagsOf(right.tags))
    && SameOrHides(AwsTags(left), AwsTags(right))
    && (LacksValue(TagsOf(left.tags), TagsOf(right.tags)) || LacksValue(AwsTags(left), AwsTags(right)))
  }

  /** Two machines compare equal one way and not the other exactly if they are alike but for a one-sided tag. */
  lemma CompareIsOneSidedIff(left: Machine, right: Machine)
    ensures Compare(left, right) && !Compare(right, left) <==> OneSided(left, right)
  {
    CompareTagsExactly(TagsOf(left.tags), TagsOf(right.tags));
    CompareTagsExactly(AwsTags(left), AwsTags(right));
    if Compare(left, right) {
      CompareTagsIsSymmetricIff(TagsOf(left.tags), TagsOf(right.tags));
      CompareTagsIsSymmetricIff(AwsTags(left), AwsTags(right));
    }
  }

  /** A one-sided comparison takes a blank tag on the side that lacks the value. */
  lemma OneSidedTakesABlankTag(left: Machine, right: Machine)
    requires OneSided(left, right)
    ensures !NoBlankTags(left)
  {
    if LacksValue(TagsOf(left.tags), TagsOf(right.tags)) {
      HidingTakesABlankTag(TagsOf(left.tags), TagsOf(right.tags));
    } else {
      HidingTakesABlankTag(AwsTags(left), AwsTags(right));
    }
  }

  /** Two machines that compare equal although they are not. */
  ghost predicate Confuses(left: Machine, right: Machine) {
    && Compare(left, right)
    && (Hides(TagsOf(left.tags), TagsOf(right.tags)) || Hides(AwsTags(left), AwsTags(right)))
  }

  /** Compare is equality of what is sent, except on confused machines. */
  lemma CompareExactly(left: Machine, right: Machine)
    ensures Compare(left, right) <==> Wire(left) == Wire(right) || Confuses(left, right)
    ensures Confuses(left, right) ==> Wire(left) != Wire(right)
  {
    SameOnTheWire(left, right);
    CompareTagsExactly(TagsOf(left.tags), TagsOf(right.tags));
    CompareTagsExactly(AwsTags(left), AwsTags(right));
  }

  predicate NoBlankTags(m: Machine) {
    && (forall k :: k in TagsOf(m.tags) ==> TagsOf(m.tags)[k] != "")
    && (forall k :: k in AwsTags(m) ==> AwsTags(m)[k] != "")
  }

  /** A machine without blank tags is never confused with another. */
  lemma NoBlankTagsNoConfusion(left: Machine, right: Machine)
    requires NoBlankTags(left)
    ensures !Confuses(left, right)
  {
    if Hides(TagsOf(left.tags), TagsOf(right.tags)) {
      HidingTakesABlankTag(TagsOf(left.tags), TagsOf(right.tags));
    }
    if Hides(AwsTags(left), AwsTags(right)) {
      HidingTakesABlankTag(AwsTags(left), AwsTags(right));
    }
  }

  // ---------------------------------------------------------------- Merging

  function Prefer(given: string, kept: string): string {
    if given != "" then given else kept
  }

  /** dest after dest.UpdateFrom(source). */
  function UpdateFrom(dest: Machine, source: Machine): Machine {
    if dest.hostname != source.hostname then dest else
    Machine(
      dest.hostname,
      if dest.dataSourceIdentifier != source.dataSourceIdentifier then "" else dest.dataSourceIdentifier,
      if dest.dataSourceType != source.dataSourceType then "" else dest.dataSourceType,
      Prefer(source.ipAddress, dest.ipAddress),
      Prefer(source.location, dest.location),
      Prefer(source.requiredImage, dest.requiredImage),
      Prefer(source.plannedImage, dest.plannedImage),
      if source.requiredImage != "" then source.disableUpdates else dest.disableUpdates,
      Prefer(source.ownerGroup, dest.ownerGroup),
      if source.ownerGroups.Some? then source.ownerGroups else dest.ownerGroups,
      if source.ownerUsers.Some? then source.ownerUsers else dest.ownerUsers,
      if source.tags.Some? then source.tags else dest.tags,
      if source.awsMetadata.None? then dest.awsMetadata
      else if dest.awsMetadata.None? then source.awsMetadata
      else if CompareAws(dest.awsMetadata.value, source.awsMetadata.value) then dest.awsMetadata
      else source.awsMetadata)
  }
}
