/** Nominating new commits, one task per commit, in whatever order the tasks advance. */
module Nomination {

  import opened Options
  import opened Commits

  /** The two optional branch versions of a "cc" tag. */
  datatype CcTag = CcTag(first: Option<string>, second: Option<string>)

  /** What git and the tags in commit messages answer, fixed while a batch is gathered. */
  datatype Oracle = Oracle(
    fixTag: Sha -> Option<string>,
    ccTag: Sha -> Option<CcTag>,
    revertTag: Sha -> Option<string>,
    fullSha: string -> Option<Sha>,
    inBranch: Sha -> bool)

  /** A "cc" tag applies if it names no branch at all or this one. */
  predicate CcApplies(tag: Option<CcTag>, version: string) {
    && tag.Some?
    && (tag.value == CcTag(None, None) || tag.value.first == Some(version) || tag.value.second == Some(version))
  }

  // ----- what one commit's nomination is

  /** The revert tag, looked at last. */
  function RevertPart(o: Oracle, c: Record): Record {
    match o.revertTag(c.sha)
    case None => c
    case Some(tag) =>
      match o.fullSha(tag)
      case None => c
      case Some(full) =>
        c.(becauseSha := Some(full), nominationType := Some(REVERT), nominated := c.nominated || o.inBranch(full))
  }

  function AfterFix(o: Oracle, version: string, c: Record): Record {
    if CcApplies(o.ccTag(c.sha), version) then c.(nominated := true, nominationType := Some(CC))
    else RevertPart(o, c)
  }

  /** `resolve_nomination`: fixes and cc tags take precedence over reverts, and a fix of something outside the
      branch is remembered but does not stop the search. */
  function Resolve(o: Oracle, version: string, c: Record): Record {
    match o.fixTag(c.sha)
    case None => AfterFix(o, version, c)
    case Some(tag) =>
      match o.fullSha(tag)
      case None => AfterFix(o, version, c)
      case Some(full) =>
        var f := c.(becauseSha := Some(full), nominationType := Some(FIXES));
        if o.inBranch(full) then f.(nominated := true) else AfterFix(o, version, f)
  }

  function ResolveAll(o: Oracle, version: string, log: seq<(Sha, string)>): (rs: seq<Record>)
    ensures |rs| == |log|
  {
    seq(|log|, i requires 0 <= i < |log| => Resolve(o, version, NewRecord(log[i].0, log[i].1)))
  }

  /** What a tag names, if git knows it. */
  function Named(o: Oracle, tag: Option<string>): Option<Sha> {
    if tag.Some? then o.fullSha(tag.value) else None
  }

  predicate NamesBranchCommit(o: Oracle, tag: Option<string>) {
    Named(o, tag).Some? && o.inBranch(Named(o, tag).value)
  }

  /** A new commit is nominated exactly when it fixes a commit of the branch, is marked for it, or reverts a commit of
      the branch. A fix of the branch comes first, then the mark. After those a revert that git knows decides, even over
      a fix, and only last a fix of something outside the branch. What a fix names is remembered unless a revert
      decides. */
  lemma NominationIs(o: Oracle, version: string, sha: Sha, description: string)
    ensures var r := Resolve(o, version, NewRecord(sha, description));
            var fix, revert := Named(o, o.fixTag(sha)), Named(o, o.revertTag(sha));
            var tag := o.ccTag(sha);
            var cc := tag.Some? && (tag.value.first == None == tag.value.second
                                    || tag.value.first == Some(version) || tag.value.second == Some(version));
            && (r.nominated <==>
                NamesBranchCommit(o, o.fixTag(sha)) || cc || NamesBranchCommit(o, o.revertTag(sha)))
            && r.nominationType == (if NamesBranchCommit(o, o.fixTag(sha)) then Some(FIXES)
                                    else if cc then Some(CC)
                                    else if revert.Some? then Some(REVERT)
                                    else if fix.Some? then Some(FIXES)
                                    else None)
            && r.becauseSha == (if r.nominationType == Some(REVERT) then revert else fix)
            && r.sha == sha && r.description == description && r.resolution == UNRESOLVED && r.mainSha == None
  {
  }

  /** Of a commit with a fix that git knows, the revert tag decides exactly when git knows that too, the fix is of a
      commit outside the branch, and no mark applies; otherwise fixes and marks take precedence, as documented. */
  lemma RevertDecidesIff(o: Oracle, version: string, sha: Sha, description: string)
    requires Named(o, o.fixTag(sha)).Some?
    ensures var r := Resolve(o, version, NewRecord(sha, description));
            r.nominationType == Some(REVERT)
            <==> && Named(o, o.revertTag(sha)).Some?
                 && !NamesBranchCommit(o, o.fixTag(sha)) && !CcApplies(o.ccTag(sha), version)
  {
    NominationIs(o, version, sha, description);
  }

  /** A commit that fixes one commit and reverts another, both outside the branch, goes down as a revert. */
  lemma RevertOverridesFix()
    ensures var o := Oracle(sha => Some("fixed"), sha => None, sha => Some("reverted"), text => Some(text),
                            sha => false);
            var r := Resolve(o, "22.1", NewRecord("c", ""));
            r.nominationType == Some(REVERT) && r.becauseSha == Some("reverted")
  {
  }

  // ----- the same, step by step

  /** Where a task waits: for the commit's message, for git to expand a sha, or for git to look it up. */
  datatype Stage =
    | Fetch
    | ExpandFix(tag: string)
    | LookupFix(full: Sha)
    | ExpandRevert(tag: string)
    | LookupRevert(full: Sha)
    | Done

  datatype Task = Task(commit: Record, stage: Stage)

  function ToRevert(o: Oracle, c: Record): Task {
    match o.revertTag(c.sha)
    case None => Task(c, Done)
    case Some(tag) => Task(c, ExpandRevert(tag))
  }

  function ToCc(o: Oracle, version: string, c: Record): Task {
    if CcApplies(o.ccTag(c.sha), version) then Task(c.(nominated := true, nominationType := Some(CC)), Done)
    else ToRevert(o, c)
  }

  /** One resumption of a task, up to its next wait. */
  function Advance(o: Oracle, version: string, t: Task): Task {
    var c := t.commit;
    match t.stage
    case Fetch =>
      (match o.fixTag(c.sha)
       case None => ToCc(o, version, c)
       case Some(tag) => Task(c, ExpandFix(tag)))
    case ExpandFix(tag) =>
      (match o.fullSha(tag)
       case None => ToCc(o, version, c)
       case Some(full) => Task(c.(becauseSha := Some(full), nominationType := Some(FIXES)), LookupFix(full)))
    case LookupFix(full) =>
      if o.inBranch(full) then Task(c.(nominated := true), Done) else ToCc(o, version, c)
    case ExpandRevert(tag) =>
      (match o.fullSha(tag)
       case None => Task(c, Done)
       case Some(full) => Task(c.(becauseSha := Some(full), nominationType := Some(REVERT)), LookupRevert(full)))
    case LookupRevert(full) =>
      Task(if o.inBranch(full) then c.(nominated := true) else c, Done)
    case Done => t
  }

  /** What a task will have made of its commit when it is done. */
  function Outcome(o: Oracle, version: string, t: Task): Record {
    var c := t.commit;
    match t.stage
    case Fetch => Resolve(o, version, c)
    case ExpandFix(tag) =>
      (match o.fullSha(tag)
       case None => AfterFix(o, version, c)
       case Some(full) =>
         var f := c.(becauseSha := Some(full), nominationType := Some(FIXES));
         if o.inBranch(full) then f.(nominated := true) else AfterFix(o, version, f))
    case LookupFix(full) => if o.inBranch(full) then c.(nominated := true) else AfterFix(o, version, c)
    case ExpandRevert(tag) =>
      (match o.fullSha(tag)
       case None => c
       case Some(full) =>
         c.(becauseSha := Some(full), nominationType := Some(REVERT), nominated := c.nominated || o.inBranch(full)))
    case LookupRevert(full) => if o.inBranch(full) then c.(nominated := true) else c
    case Done => c
  }

  lemma AdvanceKeepsOutcome(o: Oracle, version: string, t: Task)
    ensures Outcome(o, version, Advance(o, version, t)) == Outcome(o, version, t)
  {
  }

  // ----- all tasks of a batch, interleaved

  /** The tasks, and the list of final size that they fill. */
  datatype Gathering = Gathering(tasks: seq<Task>, slots: seq<Option<Record>>)

  function Launch(log: seq<(Sha, string)>): Gathering {
    Gathering(seq(|log|, i requires 0 <= i < |log| => Task(NewRecord(log[i].0, log[i].1), Fetch)),
              seq(|log|, i => None))
  }

  /** The event loop resumes task `i`; when the task is done it stores its commit in slot `i`. */
  function Resume(o: Oracle, version: string, g: Gathering, i: nat): Gathering
    requires |g.slots| == |g.tasks|
  {
    if i >= |g.tasks| || g.tasks[i].stage.Done? then g
    else
      var t := Advance(o, version, g.tasks[i]);
      Gathering(g.tasks[i := t], if t.stage.Done? then g.slots[i := Some(t.commit)] else g.slots)
  }

  function Interleave(o: Oracle, version: string, g: Gathering, schedule: seq<nat>): (r: Gathering)
    requires |g.slots| == |g.tasks|
    ensures |r.tasks| == |r.slots| == |g.tasks|
  {
    if schedule == [] then g
    else Resume(o, version, Interleave(o, version, g, schedule[..|schedule| - 1]), schedule[|schedule| - 1])
  }

  /** Every slot is empty, or already holds the commit the sequential computation gives for it. */
  predicate OnTheWay(o: Oracle, version: string, log: seq<(Sha, string)>, g: Gathering) {
    && |g.tasks| == |g.slots| == |log|
    && forall i | 0 <= i < |log| ::
         && Outcome(o, version, g.tasks[i]) == ResolveAll(o, version, log)[i]
         && g.slots[i] == if g.tasks[i].stage.Done? then Some(ResolveAll(o, version, log)[i]) else None
  }

  lemma {:induction false} AlwaysOnTheWay(o: Oracle, version: string, log: seq<(Sha, string)>, schedule: seq<nat>)
    ensures OnTheWay(o, version, log, Interleave(o, version, Launch(log), schedule))
  {
    if schedule != [] {
      var front := schedule[..|schedule| - 1];
      AlwaysOnTheWay(o, version, log, front);
      var g, i := Interleave(o, version, Launch(log), front), schedule[|schedule| - 1];
      if i < |log| {
        AdvanceKeepsOutcome(o, version, g.tasks[i]);
      }
    }
  }

  predicate AllDone(g: Gathering) {
    forall i | 0 <= i < |g.tasks| :: g.tasks[i].stage.Done?
  }

  /** For every order in which the tasks advance and complete, once all are done no slot is empty and the list is
      the sequential result in input order. */
  lemma AnyOrderGivesSequentialResult(o: Oracle, version: string, log: seq<(Sha, string)>, schedule: seq<nat>)
    requires AllDone(Interleave(o, version, Launch(log), schedule))
    ensures var g := Interleave(o, version, Launch(log), schedule);
            |g.slots| == |log| && forall i | 0 <= i < |log| :: g.slots[i] == Some(ResolveAll(o, version, log)[i])
  {
    AlwaysOnTheWay(o, version, log, schedule);
  }

  // ----- and the tasks do get done

  function StepsLeft(stage: Stage): nat {
    match stage
    case Fetch => 5
    case ExpandFix(_) => 4
    case LookupFix(_) => 3
    case ExpandRevert(_) => 2
    case LookupRevert(_) => 1
    case Done => 0
  }

  function Resumptions(schedule: seq<nat>, i: nat): nat {
    if schedule == [] then 0
    else Resumptions(schedule[..|schedule| - 1], i) + (if schedule[|schedule| - 1] == i then 1 else 0)
  }

  lemma {:induction false} ResumptionsCount(o: Oracle, version: string, log: seq<(Sha, string)>,
                                            schedule: seq<nat>, i: nat)
    requires i < |log|
    ensures var t := Interleave(o, version, Launch(log), schedule).tasks[i];
            t.stage.Done? || StepsLeft(t.stage) + Resumptions(schedule, i) <= 5
  {
    if schedule != [] {
      ResumptionsCount(o, version, log, schedule[..|schedule| - 1], i);
    }
  }

  /** Five resumptions finish any task, whatever happens in between. */
  lemma FiveResumptionsSuffice(o: Oracle, version: string, log: seq<(Sha, string)>, schedule: seq<nat>)
    requires forall i | 0 <= i < |log| :: Resumptions(schedule, i) >= 5
    ensures AllDone(Interleave(o, version, Launch(log), schedule))
  {
    forall i | 0 <= i < |log| ensures Interleave(o, version, Launch(log), schedule).tasks[i].stage.Done? {
      ResumptionsCount(o, version, log, schedule, i);
    }
  }
}
