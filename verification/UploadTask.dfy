/** The controller's upload protocol: scheduled uploads, persistence, quits, crashes, restarts and finalization. */
module UploadTask {

  /** How many uploads a task owes: one for each interval, the last one possibly short. */
  function ExpectedUploadFileCount(totalSteps: int, uploadInterval: int): (count: nat)
    ensures totalSteps > 0 && uploadInterval > 0 ==> count > 0
    ensures forall n: nat :: totalSteps > 0 && uploadInterval > 0 ==> (n < count <==> Reaches(n, uploadInterval, totalSteps))
  {
    if totalSteps <= 0 || uploadInterval <= 0 then 0
    else
      CountBelow(totalSteps, uploadInterval);
      (totalSteps + uploadInterval - 1) / uploadInterval
  }

  /** The first `n` intervals end before the last step. */
  predicate Reaches(n: nat, uploadInterval: int, totalSteps: int) {
    n * uploadInterval < totalSteps
  }

  lemma CountBelow(total: int, interval: int)
    requires total > 0 && interval > 0
    ensures (total + interval - 1) / interval > 0
    ensures forall n: nat :: n < (total + interval - 1) / interval <==> Reaches(n, interval, total)
  {
    var c := (total + interval - 1) / interval;
    var r := (total + interval - 1) % interval;
    assert total + interval - 1 == interval * c + r;
    forall n: nat ensures n < c <==> Reaches(n, interval, total) {
      if n < c {
        MulMono(n + 1, c, interval);
        assert (n + 1) * interval == n * interval + interval;
      } else {
        MulMono(c, n, interval);
      }
    }
  }

  lemma MulMono(x: int, y: int, k: int)
    requires x <= y && k >= 0
    ensures x * k <= y * k
  {
    assert (y - x) * k >= 0;
  }

  // ---------- what is kept ----------

  /** The uploads numbered so far are covered by the steps up to the last upload, which is not the end of the task. */
  ghost predicate Covered(uploadFileNumber: nat, lastUploadStep: int, totalSteps: int, uploadInterval: int) {
    uploadFileNumber * uploadInterval <= lastUploadStep < totalSteps
  }

  ghost predicate HasAll(submitted: set<int>, n: nat) {
    forall i :: 0 <= i < n ==> i in submitted
  }

  ghost predicate Within(submitted: set<int>, n: nat) {
    forall i :: i in submitted ==> 0 <= i < n
  }

  /** Exactly the uploads below `n` have been handed over. */
  ghost predicate Exactly(submitted: set<int>, n: nat) {
    forall i :: i in submitted <==> 0 <= i < n
  }

  /** The later set has everything in the earlier one, and otherwise only numbers in a range. */
  ghost predicate Extends(later: set<int>, earlier: set<int>, lo: int, hi: int) {
    (forall i :: i in earlier ==> i in later) && forall i :: i in later ==> i in earlier || lo <= i < hi
  }

  ghost function Numbers(lo: int, hi: int): (s: set<int>)
    ensures forall i :: i in s <==> lo <= i < hi
    decreases hi - lo
  {
    if lo >= hi then {} else Numbers(lo, hi - 1) + {hi - 1}
  }

  /** The number of uploads there will be once finalization from `number` on has succeeded. */
  function FinalCount(owed: nat, number: nat): nat {
    if owed > number + 1 then owed else number + 1
  }

  /**
   * With nothing handed over that is not owed, finalization hands over something that is not owed exactly when all that is owed
   * has been numbered before it starts; then it is the one upload of that number.
   */
  lemma FinalizationOverruns(submitted: set<int>, owed: nat, number: nat)
    requires Within(submitted, owed)
    ensures var later := submitted + Numbers(number, FinalCount(owed, number));
      && (Within(later, owed) <==> number < owed)
      && (number >= owed ==> later == submitted + {number as int} && number !in submitted)
  {
    var later := submitted + Numbers(number, FinalCount(owed, number));
    if number >= owed {
      assert number in later;
    }
  }

  /** A task of one step owes one upload; once that is handed over and numbered, finalizing again hands over upload 1. */
  lemma FinalizedTwice()
    ensures ExpectedUploadFileCount(1, 1) == 1 && Exactly(Numbers(0, FinalCount(1, 0)), 1)
    ensures var later := Numbers(0, FinalCount(1, 0)) + Numbers(1, FinalCount(1, 1)); 1 in later && !Within(later, 1)
  {
    assert 1 in Numbers(1, FinalCount(1, 1));
  }

  /** A covered number leaves at least one upload owed. */
  lemma CoveredBelow(n: nat, last: int, total: int, interval: int)
    requires total > 0 && interval > 0 && Covered(n, last, total, interval)
    ensures n < ExpectedUploadFileCount(total, interval)
  {
    assert Reaches(n, interval, total);
  }

  /** An upload that is due is covered by the step it is made at, and another is still owed after it. */
  lemma DueCovered(n: nat, last: int, observed: int, total: int, interval: int)
    requires total > 0 && interval > 0 && Covered(n, last, total, interval) && observed - last >= interval
    requires observed < total
    ensures Covered(n + 1, observed, total, interval) && n + 1 < ExpectedUploadFileCount(total, interval)
  {
    assert (n + 1) * interval == n * interval + interval;
    CoveredBelow(n + 1, observed, total, interval);
  }

  // ---------- the state ----------

  /** What the progress file carries from one controller process to the next. */
  datatype Progress = Progress(uploadFileNumber: nat, lastCompletedStep: int, lastUploadStep: int, modelCompleted: int)

  datatype ProgressFile = Missing | Empty | Unreadable | Saved(progress: Progress)

  /** A controller process's own state. */
  class TaskState {
    var uploadFileNumber: nat
    var lastCompletedStep: int
    var lastUploadStep: int
    var currentStep: int
    var modelCompleted: int
    var childStatus: int

    constructor ()
      ensures uploadFileNumber == 0 && lastCompletedStep == 0 && lastUploadStep == 0 && modelCompleted == 0
      ensures childStatus == 1
    {
      uploadFileNumber, lastCompletedStep, lastUploadStep, currentStep, modelCompleted, childStatus := 0, 0, 0, 0, 0, 1;
    }

    function Snapshot(): Progress
      reads this
    {
      Progress(uploadFileNumber, lastCompletedStep, lastUploadStep, modelCompleted)
    }

    method Load(p: Progress)
      modifies this
      ensures Snapshot() == p && childStatus == old(childStatus)
    {
      uploadFileNumber, lastCompletedStep, lastUploadStep, modelCompleted :=
        p.uploadFileNumber, p.lastCompletedStep, p.lastUploadStep, p.modelCompleted;
    }
  }

  /** What the model's own restart file says: it is missing, unreadable, or names a step. */
  datatype Restart = NoRestart | BadRestart | RestartAt(step: int)

  /**
   * Takes up the state of an earlier process, if there was one and its files agree; starts afresh if there are no files at all;
   * refuses everything else.
   */
  method InitializeFromRestart(file: ProgressFile, restart: Restart, restartInterval: int, t: TaskState)
    returns (ok: bool)
    requires t.uploadFileNumber == 0 && t.lastCompletedStep == 0 && t.lastUploadStep == 0
    modifies t
    ensures ok <==>
      (file.Missing? && restart.NoRestart?) ||
      (file.Saved? && restart.RestartAt? && restart.step <= file.progress.lastCompletedStep + restartInterval + 2) ||
      (file.Saved? && restart.NoRestart? && file.progress.lastCompletedStep < restartInterval)
    ensures ok && file.Missing? ==> t.lastCompletedStep == 0
    ensures ok && file.Missing? ==> t.uploadFileNumber == 0 && t.lastUploadStep == 0 && restart.NoRestart?
    ensures ok && file.Saved? ==>
      t.uploadFileNumber == file.progress.uploadFileNumber && t.lastUploadStep == file.progress.lastUploadStep
    ensures ok && file.Saved? && !restart.NoRestart? ==>
      restart.RestartAt? && t.lastCompletedStep == restart.step <= file.progress.lastCompletedStep + restartInterval + 2
    ensures ok && file.Saved? && restart.NoRestart? ==> t.lastCompletedStep == file.progress.lastCompletedStep < restartInterval
  {
    if file.Missing? && restart.NoRestart? {
      return true;
    }
    if !file.Missing? && !file.Empty? && !restart.NoRestart? {
      if restart.BadRestart? || file.Unreadable? {
        return false;
      }
      t.Load(file.progress);
      if restart.step > t.lastCompletedStep + (restartInterval + 2) {
        return false;
      }
      t.lastCompletedStep := restart.step;
      return true;
    }
    if file.Empty? {
      return false;
    }
    if !file.Missing? && restart.NoRestart? {
      if file.Unreadable? {
        return false;
      }
      t.Load(file.progress);
      return t.lastCompletedStep < restartInterval;
    }
    return false;
  }

  method PrepareForRun(t: TaskState)
    modifies t
    ensures t.modelCompleted == 0 && t.currentStep == t.lastCompletedStep == old(t.lastCompletedStep)
    ensures t.uploadFileNumber == old(t.uploadFileNumber) && t.lastUploadStep == old(t.lastUploadStep)
  {
    t.modelCompleted := 0;
    t.currentStep := t.lastCompletedStep;
  }

  /** What the model is seen to do in one round of the main loop: whether it still runs, and its step, if that can be told. */
  datatype Round = Round(childStatus: int, step: int, known: bool)

  /** The model is seen to end. */
  ghost predicate Ends(rounds: seq<Round>) {
    exists i :: 0 <= i < |rounds| && rounds[i].childStatus != 0
  }

  /** Whether something outside the program goes wrong; nothing does when all is smooth. */
  method GoesWrong(smooth: bool) returns (wrong: bool)
    ensures smooth ==> !wrong
  {
    wrong := *;
    if smooth {
      wrong := false;
    }
  }

  /** How an operation of the controller ended: the process may also be gone. */
  datatype Outcome = Killed | Failed | Succeeded

  /** The task as the world sees it: its progress file and the uploads handed to the client. */
  class Task {
    const totalSteps: int
    const uploadInterval: int
    const standalone: bool
    var file: ProgressFile
    ghost var submitted: set<int>

    constructor (totalSteps: int, uploadInterval: int, standalone: bool)
      requires totalSteps > 0 && uploadInterval > 0
      ensures Valid() && file == Missing && submitted == {}
      ensures this.totalSteps == totalSteps && this.uploadInterval == uploadInterval && this.standalone == standalone
    {
      this.totalSteps, this.uploadInterval, this.standalone := totalSteps, uploadInterval, standalone;
      file, submitted := Missing, {};
    }

    ghost predicate Configured() {
      totalSteps > 0 && uploadInterval > 0
    }

    function Owed(): nat {
      ExpectedUploadFileCount(totalSteps, uploadInterval)
    }

    /** Uploads below the number have been handed over, and the number is covered. */
    ghost predicate InOrder(number: nat, last: int)
      reads this
    {
      Covered(number, last, totalSteps, uploadInterval) && (!standalone ==> HasAll(submitted, number))
    }

    ghost predicate Valid()
      reads this
    {
      && Configured() && Within(submitted, Owed() + 1)
      && (file.Saved? ==> InOrder(file.progress.uploadFileNumber, file.progress.lastUploadStep))
    }

    /** Everything owed has been handed over, if anything is at all. */
    ghost predicate AllHandedOver()
      reads this
    {
      !standalone ==> HasAll(submitted, Owed())
    }

    /** Archives files and hands them to the client as upload `index`. Any part of it may fail, and the process may die. */
    method ZipAndSendUpload(index: nat, smooth: bool) returns (r: Outcome)
      modifies this`submitted
      ensures submitted == old(submitted) || (!standalone && submitted == old(submitted) + {index})
      ensures r.Succeeded? && !standalone ==> submitted == old(submitted) + {index}
      ensures r.Failed? ==> submitted == old(submitted)
      ensures smooth ==> r.Succeeded?
    {
      var wrong := GoesWrong(smooth);
      if wrong {
        return Failed;
      }
      wrong := GoesWrong(smooth);
      if wrong {
        return Killed;
      }
      if standalone {
        return Succeeded;
      }
      wrong := GoesWrong(smooth);
      if wrong {
        return Failed;
      }
      submitted := submitted + {index as int};
      wrong := GoesWrong(smooth);
      return if wrong then Killed else Succeeded;
    }

    /** Makes an upload when one is due at the observed step; steps may also go back. */
    method ProcessScheduledUpload(t: TaskState, observed: int, smooth: bool) returns (r: Outcome)
      requires Valid() && InOrder(t.uploadFileNumber, t.lastUploadStep)
      modifies this`submitted, t`uploadFileNumber, t`lastUploadStep
      ensures Valid() && (!r.Killed? ==> InOrder(t.uploadFileNumber, t.lastUploadStep))
      ensures submitted == old(submitted) || submitted == old(submitted) + {old(t.uploadFileNumber)}
      ensures Extends(submitted, old(submitted), 0, Owed())
      ensures smooth ==> r.Succeeded?
      ensures r.Succeeded? && old(t.lastUploadStep) + uploadInterval <= observed < totalSteps ==>
        && t.uploadFileNumber == old(t.uploadFileNumber) + 1 && t.lastUploadStep == observed
        && (standalone || old(t.uploadFileNumber) in submitted)
      ensures !(r.Succeeded? && old(t.lastUploadStep) + uploadInterval <= observed < totalSteps) && !r.Killed? ==>
        t.uploadFileNumber == old(t.uploadFileNumber) && t.lastUploadStep == old(t.lastUploadStep) && submitted == old(submitted)
    {
      hide ExpectedUploadFileCount, Covered;
      if observed - t.lastUploadStep < uploadInterval || observed >= totalSteps {
        return Succeeded;
      }
      DueCovered(t.uploadFileNumber, t.lastUploadStep, observed, totalSteps, uploadInterval);
      var wrong := GoesWrong(smooth);
      if wrong {
        return Failed;
      }
      r := ZipAndSendUpload(t.uploadFileNumber, smooth);
      if r.Succeeded? {
        t.lastUploadStep := observed;
        t.uploadFileNumber := t.uploadFileNumber + 1;
      }
    }

    /** Hands over every upload still owed, and at least one. */
    method FinalizeRemainingUploads(t: TaskState, smooth: bool) returns (r: Outcome)
      requires !standalone ==> HasAll(submitted, t.uploadFileNumber)
      modifies this`submitted, t`uploadFileNumber
      ensures Extends(submitted, old(submitted), old(t.uploadFileNumber), FinalCount(Owed(), old(t.uploadFileNumber)))
      ensures !standalone ==> HasAll(submitted, t.uploadFileNumber)
      ensures r.Succeeded? ==> t.uploadFileNumber == FinalCount(Owed(), old(t.uploadFileNumber))
      ensures smooth ==> r.Succeeded?
      ensures r.Succeeded? && !standalone ==>
        submitted == old(submitted) + Numbers(old(t.uploadFileNumber), FinalCount(Owed(), old(t.uploadFileNumber)))
      ensures r.Succeeded? && !standalone && Within(old(submitted), Owed()) ==>
        (Within(submitted, Owed()) <==> old(t.uploadFileNumber) < Owed())
    {
      hide ExpectedUploadFileCount;
      var start := t.uploadFileNumber;
      var total := FinalCount(Owed(), start);
      var index := start;
      while index < total
        invariant start <= index <= total && t.uploadFileNumber == index
        invariant !standalone ==> HasAll(submitted, index) && submitted == old(submitted) + Numbers(start, index)
        invariant Extends(submitted, old(submitted), start, total)
      {
        var wrong := GoesWrong(smooth);
        if wrong {
          return Failed;
        }
        r := ZipAndSendUpload(index, smooth);
        if !r.Succeeded? {
          return;
        }
        t.uploadFileNumber := index + 1;
        index := index + 1;
      }
      if !standalone && Within(old(submitted), Owed()) {
        FinalizationOverruns(old(submitted), Owed(), start);
      }
      r := Succeeded;
    }

    /** Replaces the progress file as a whole, or leaves it as it was. */
    method WriteProgress(t: TaskState, smooth: bool) returns (ok: bool)
      modifies this`file
      ensures file == old(file) || file == Saved(t.Snapshot())
      ensures ok ==> file == Saved(t.Snapshot())
      ensures smooth ==> ok
    {
      var wrong := GoesWrong(smooth);
      if wrong {
        return false;
      }
      file := Saved(t.Snapshot());
      wrong := GoesWrong(smooth);
      return !wrong;
    }

    /** The first finalization of a process: it submits nothing that is not owed, and in the end all that is. */
    method FirstFinalization(t: TaskState, smooth: bool) returns (r: Outcome)
      requires Valid() && InOrder(t.uploadFileNumber, t.lastUploadStep)
      modifies this`submitted, t`uploadFileNumber
      ensures Valid() && Extends(submitted, old(submitted), 0, Owed())
      ensures r.Succeeded? ==> t.uploadFileNumber == Owed() && AllHandedOver()
      ensures smooth ==> r.Succeeded?
    {
      hide ExpectedUploadFileCount, Covered;
      FinalizationFits(t.uploadFileNumber, t.lastUploadStep, totalSteps, uploadInterval);
      r := FinalizeRemainingUploads(t, smooth);
    }

    /** Stops the model after an error of the controller and saves what there is, unless the client shuts the task down. */
    method RecoverAfterControllerError(t: TaskState) returns (r: Outcome)
      requires Valid() && InOrder(t.uploadFileNumber, t.lastUploadStep)
      modifies this`submitted, t`uploadFileNumber, t`childStatus
      ensures Valid() && Extends(submitted, old(submitted), 0, Owed())
      ensures r.Succeeded? ==> AllHandedOver()
    {
      hide ExpectedUploadFileCount, Covered;
      t.childStatus := 3;
      if * {
        return Failed;
      }
      r := FirstFinalization(t, false);
    }

    /**
     * One round of the main loop; the process may end in it, and may have finalized its uploads then. When all is smooth, a new
     * step is taken up with the upload that is due at it, and the state is saved.
     */
    method LoopRound(t: TaskState, round: Round, smooth: bool) returns (goOn: bool, finalized: bool)
      requires Valid() && InOrder(t.uploadFileNumber, t.lastUploadStep)
      modifies this`file, this`submitted, t
      ensures Valid() && Extends(submitted, old(submitted), 0, Owed())
      ensures goOn ==> InOrder(t.uploadFileNumber, t.lastUploadStep) && t.modelCompleted == old(t.modelCompleted)
      ensures goOn ==> t.childStatus == round.childStatus && t.lastCompletedStep == round.step && file == Saved(t.Snapshot())
      ensures finalized ==> !goOn && AllHandedOver()
      ensures smooth ==> goOn
      ensures goOn && round.step != old(t.lastCompletedStep) && old(t.lastUploadStep) + uploadInterval <= round.step < totalSteps ==>
        && t.uploadFileNumber == old(t.uploadFileNumber) + 1 && t.lastUploadStep == round.step
        && (standalone || old(t.uploadFileNumber) in submitted)
      ensures goOn && !(round.step != old(t.lastCompletedStep) && old(t.lastUploadStep) + uploadInterval <= round.step < totalSteps) ==>
        t.uploadFileNumber == old(t.uploadFileNumber) && t.lastUploadStep == old(t.lastUploadStep) && submitted == old(submitted)
    {
      hide ExpectedUploadFileCount, Covered, HasAll, Within;
      var wrong := GoesWrong(smooth);
      if wrong {
        // Killed, or shut down by the client.
        return false, false;
      }
      wrong := GoesWrong(smooth);
      if wrong {
        var ended := RecoverAfterControllerError(t);
        return false, ended.Succeeded?;
      }
      t.childStatus := round.childStatus;
      var observed := round.step;
      if round.known {
        t.currentStep := observed;
      }
      if observed != t.lastCompletedStep {
        var r := ProcessScheduledUpload(t, observed, smooth);
        if !r.Succeeded? {
          return false, false;
        }
        t.lastCompletedStep := observed;
      }
      var written := WriteProgress(t, smooth);
      if !written {
        var ended := RecoverAfterControllerError(t);
        return false, ended.Succeeded?;
      }
      return true, false;
    }

    /**
     * The life of one controller process, which may be killed anywhere. It tells whether a finalization of its uploads has
     * succeeded, and whether it has begun another one after that; but for that one, it hands over nothing that is not owed. A
     * process that may start, and sees its model end with nothing going wrong outside, hands over all that is owed.
     */
    method RunProcess(restart: Restart, restartInterval: int, rounds: seq<Round>, smooth: bool)
      returns (finalized: bool, twice: bool)
      requires Valid()
      modifies this
      ensures Valid() && (twice ==> finalized)
      ensures Extends(submitted, old(submitted), 0, if twice then Owed() + 1 else Owed())
      ensures finalized ==> AllHandedOver()
      ensures smooth && Ends(rounds) ==>
        (old(file).Missing? && restart.NoRestart? ==> finalized && !twice)
      ensures smooth && Ends(rounds) && old(file).Saved? ==>
        (restart.NoRestart? && old(file).progress.lastCompletedStep < restartInterval ==> finalized && !twice)
      ensures smooth && Ends(rounds) && old(file).Saved? && restart.RestartAt? ==>
        (restart.step <= old(file).progress.lastCompletedStep + restartInterval + 2 ==> finalized && !twice)
    {
      hide ExpectedUploadFileCount, Covered, Within, HasAll;
      var t := new TaskState();
      var ok := InitializeFromRestart(file, restart, restartInterval, t);
      if !ok {
        return false, false;
      }
      PrepareForRun(t);
      StartInOrder(this, t);
      ok := WriteProgress(t, smooth);
      if !ok {
        return false, false;
      }
      t.childStatus := 0;
      var i := 0;
      while t.childStatus == 0 && t.modelCompleted == 0
        invariant 0 <= i <= |rounds| && t.modelCompleted == 0
        invariant forall k :: 0 <= k < i - 1 ==> rounds[k].childStatus == 0
        invariant t.childStatus == if i == 0 then 0 else rounds[i - 1].childStatus
        invariant Valid() && InOrder(t.uploadFileNumber, t.lastUploadStep)
        invariant Extends(submitted, old(submitted), 0, Owed())
        decreases |rounds| - i
      {
        if i == |rounds| {
          return false, false;
        }
        ok, finalized := LoopRound(t, rounds[i], smooth);
        if !ok {
          return finalized, false;
        }
        i := i + 1;
      }
      t.modelCompleted := 1;
      ok := WriteProgress(t, smooth);
      var wrong := GoesWrong(smooth);
      if wrong {
        return false, false;
      }
      wrong := GoesWrong(smooth);
      if wrong {
        var ended := RecoverAfterControllerError(t);
        return ended.Succeeded?, false;
      }
      var r := FirstFinalization(t, smooth);
      if !r.Succeeded? {
        return false, false;
      }
      finalized, twice := true, false;
      wrong := GoesWrong(smooth);
      if wrong {
        // The wait before the end fails without the client asking for a shutdown: finalization runs once more.
        twice := SecondFinalization(t);
      }
    }

    /** A second finalization in one process has nothing left to submit and submits one upload too many. */
    method SecondFinalization(t: TaskState) returns (begun: bool)
      requires Valid() && t.uploadFileNumber == Owed() && AllHandedOver()
      modifies this`submitted, t`uploadFileNumber, t`childStatus
      ensures Valid() && AllHandedOver()
      ensures Extends(submitted, old(submitted), Owed(), if begun then Owed() + 1 else Owed())
      ensures begun && t.uploadFileNumber > Owed() && !standalone ==> Owed() in submitted
    {
      hide ExpectedUploadFileCount, Covered;
      t.childStatus := 3;
      if * {
        return false;
      }
      var r := FinalizeRemainingUploads(t, false);
      return true;
    }
  }

  /** A fresh start and a persisted state are both in order. */
  lemma StartInOrder(task: Task, t: TaskState)
    requires task.Valid()
    requires var saved := task.file.Saved?;
      && t.uploadFileNumber == (if saved then task.file.progress.uploadFileNumber else 0)
      && t.lastUploadStep == (if saved then task.file.progress.lastUploadStep else 0)
    ensures task.InOrder(t.uploadFileNumber, t.lastUploadStep)
  {
  }

  /** From a covered number, finalization submits only what is owed. */
  lemma FinalizationFits(number: nat, last: int, totalSteps: int, uploadInterval: int)
    requires totalSteps > 0 && uploadInterval > 0 && Covered(number, last, totalSteps, uploadInterval)
    ensures FinalCount(ExpectedUploadFileCount(totalSteps, uploadInterval), number) == ExpectedUploadFileCount(totalSteps, uploadInterval)
  {
    hide ExpectedUploadFileCount;
    CoveredBelow(number, last, totalSteps, uploadInterval);
  }

  // ---------- the life of a task ----------

  /**
   * Any number of controller processes one after the other, each starting from what the ones before it have left behind, with
   * whatever restart file the model has written; the progress file may also get lost or damaged between them. If no process has
   * gone on to a second finalization, nothing that is not owed is ever handed over; if some finalization has succeeded, everything
   * that is owed has been.
   */
  method Lifetime(totalSteps: int, uploadInterval: int, standalone: bool, restartInterval: int, processes: nat)
    returns (task: Task, finalized: bool, twice: bool)
    requires totalSteps > 0 && uploadInterval > 0
    ensures fresh(task) && task.Valid() && task.Owed() == ExpectedUploadFileCount(totalSteps, uploadInterval)
    ensures Within(task.submitted, if twice then task.Owed() + 1 else task.Owed())
    ensures finalized ==> task.AllHandedOver()
    ensures finalized && !twice && !standalone ==> Exactly(task.submitted, task.Owed())
  {
    hide ExpectedUploadFileCount, Covered;
    task := new Task(totalSteps, uploadInterval, standalone);
    finalized, twice := false, false;
    for i := 0 to processes
      invariant fresh(task) && task.Valid() && task.standalone == standalone
      invariant task.totalSteps == totalSteps && task.uploadInterval == uploadInterval
      invariant Within(task.submitted, if twice then task.Owed() + 1 else task.Owed())
      invariant finalized ==> task.AllHandedOver()
    {
      if * {
        task.file := Missing;
      } else if * {
        task.file := Empty;
      } else if * {
        task.file := Unreadable;
      }
      var restart: Restart := *;
      var rounds: seq<Round> := *;
      var smooth: bool := *;
      var ended, again := task.RunProcess(restart, restartInterval, rounds, smooth);
      finalized, twice := finalized || ended, twice || again;
    }
  }
}
