/** Commits of the stable-branch picker: their fields, their saved form, and the objects that carry them. */
module Commits {

  import opened Options

  type Sha = string

  datatype NominationType = CC | FIXES | REVERT

  datatype Resolution = UNRESOLVED | MERGED | DENOMINATED | BACKPORTED | NOTNEEDED

  datatype Record = Record(
    sha: Sha,
    description: string,
    nominated: bool,
    nominationType: Option<NominationType>,
    resolution: Resolution,
    mainSha: Option<Sha>,
    becauseSha: Option<Sha>)

  /** A commit as first seen in main's log. */
  function NewRecord(sha: Sha, description: string): Record {
    Record(sha, description, false, None, UNRESOLVED, None, None)
  }

  /** The saved form: enumerations become their numbers. */
  datatype CommitDict = CommitDict(
    sha: Sha,
    description: string,
    nominated: bool,
    nominationType: Option<int>,
    resolution: Option<int>,
    mainSha: Option<Sha>,
    becauseSha: Option<Sha>)

  function NominationNumber(t: NominationType): int {
    match t case CC => 0 case FIXES => 1 case REVERT => 2
  }

  function ResolutionNumber(r: Resolution): int {
    match r case UNRESOLVED => 0 case MERGED => 1 case DENOMINATED => 2 case BACKPORTED => 3 case NOTNEEDED => 4
  }

  /** `NominationType(n)`; `None` stands for its ValueError. */
  function NominationOf(n: int): Option<NominationType> {
    if n == 0 then Some(CC) else if n == 1 then Some(FIXES) else if n == 2 then Some(REVERT) else None
  }

  function ResolutionOf(n: int): Option<Resolution> {
    if n == 0 then Some(UNRESOLVED) else if n == 1 then Some(MERGED) else if n == 2 then Some(DENOMINATED)
    else if n == 3 then Some(BACKPORTED) else if n == 4 then Some(NOTNEEDED) else None
  }

  function ToJson(r: Record): CommitDict {
    CommitDict(r.sha, r.description, r.nominated,
               if r.nominationType.None? then None else Some(NominationNumber(r.nominationType.value)),
               Some(ResolutionNumber(r.resolution)), r.mainSha, r.becauseSha)
  }

  /** Loads one saved commit; an unknown number fails, and an absent resolution means unresolved. */
  function FromJson(d: CommitDict): Option<Record> {
    var t: Option<Option<NominationType>> :=
      if d.nominationType.None? then Some(None)
      else match NominationOf(d.nominationType.value) case None => None case Some(x) => Some(Some(x));
    var r := if d.resolution.None? then Some(UNRESOLVED) else ResolutionOf(d.resolution.value);
    if t.None? || r.None? then None
    else Some(Record(d.sha, d.description, d.nominated, t.value, r.value, d.mainSha, d.becauseSha))
  }

  function ToJsonAll(rs: seq<Record>): seq<CommitDict> {
    seq(|rs|, i requires 0 <= i < |rs| => ToJson(rs[i]))
  }

  function FromJsonAll(ds: seq<CommitDict>): Option<seq<Record>> {
    if ds == [] then Some([])
    else
      var head, tail := FromJson(ds[0]), FromJsonAll(ds[1..]);
      if head.None? || tail.None? then None else Some([head.value] + tail.value)
  }

  /** Saving and loading gives back every commit, field by field. */
  lemma {:induction false} JsonRoundTrip(rs: seq<Record>)
    ensures FromJsonAll(ToJsonAll(rs)) == Some(rs)
  {
    if rs != [] {
      assert ToJsonAll(rs)[1..] == ToJsonAll(rs[1..]);
      JsonRoundTrip(rs[1..]);
      assert FromJson(ToJson(rs[0])) == Some(rs[0]);
      assert [rs[0]] + rs[1..] == rs;
    }
  }

  /** A commit object, shared between the list that is saved and the widgets that act on it. */
  class Commit {
    var sha: Sha
    var description: string
    var nominated: bool
    var nominationType: Option<NominationType>
    var resolution: Resolution
    var mainSha: Option<Sha>
    var becauseSha: Option<Sha>

    function Value(): Record
      reads this
    {
      Record(sha, description, nominated, nominationType, resolution, mainSha, becauseSha)
    }

    constructor (r: Record)
      ensures Value() == r
    {
      sha := r.sha;
      description := r.description;
      nominated := r.nominated;
      nominationType := r.nominationType;
      resolution := r.resolution;
      mainSha := r.mainSha;
      becauseSha := r.becauseSha;
    }

    method Become(r: Record)
      modifies this
      ensures Value() == r
    {
      sha := r.sha;
      description := r.description;
      nominated := r.nominated;
      nominationType := r.nominationType;
      resolution := r.resolution;
      mainSha := r.mainSha;
      becauseSha := r.becauseSha;
    }
  }

  function Values(commits: seq<Commit>): (vs: seq<Record>)
    reads commits
    ensures |vs| == |commits|
  {
    seq(|commits|, i requires 0 <= i < |commits| reads commits => commits[i].Value())
  }

  /** The list holds each object once. */
  ghost predicate Distinct(commits: seq<Commit>) {
    forall i, j | 0 <= i < j < |commits| :: commits[i] != commits[j]
  }

  /** What is in the file: every field under its own name, the reasons as 0 for a mark, 1 for a fix and 2 for a revert,
      the resolutions as 0 for unresolved, 1 merged, 2 denominated, 3 backported and 4 not needed. */
  lemma FileFormat(r: Record)
    ensures var d := ToJson(r);
            && d.sha == r.sha && d.description == r.description && d.nominated == r.nominated
            && d.mainSha == r.mainSha && d.becauseSha == r.becauseSha
            && (d.nominationType == None <==> r.nominationType == None)
            && (d.nominationType == Some(0) <==> r.nominationType == Some(CC))
            && (d.nominationType == Some(1) <==> r.nominationType == Some(FIXES))
            && (d.nominationType == Some(2) <==> r.nominationType == Some(REVERT))
            && (d.resolution == Some(0) <==> r.resolution == UNRESOLVED)
            && (d.resolution == Some(1) <==> r.resolution == MERGED)
            && (d.resolution == Some(2) <==> r.resolution == DENOMINATED)
            && (d.resolution == Some(3) <==> r.resolution == BACKPORTED)
            && (d.resolution == Some(4) <==> r.resolution == NOTNEEDED)
  {
  }

  /** A saved commit loads exactly when its numbers are such, or absent; without a resolution it is unresolved, and
      saved again it is what it was, with the resolution written out. */
  lemma LoadsIff(d: CommitDict)
    ensures FromJson(d).Some? <==> && (d.nominationType.Some? ==> 0 <= d.nominationType.value <= 2)
                                   && (d.resolution.Some? ==> 0 <= d.resolution.value <= 4)
    ensures FromJson(d).Some? ==>
              ToJson(FromJson(d).value) == if d.resolution.None? then d.(resolution := Some(0)) else d
  {
  }
}
