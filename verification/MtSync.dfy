/** The hand-off between the thread that fills a ring of blocks and the thread that reads them, one shared access a step. */
module MtSync {
  import opened Arithmetic
  import opened Options

  /** Block counters are 32-bit words. */
  const WORD := 0x1_0000_0000

  datatype Owner = Nobody | Reader | Writer

  /** What the reading thread is about to do. */
  datatype ReaderPc =
    | Ready | PauseClear
    | FirstCount | ClearNeedStart | ClearStop | ClearExit | ResetStarted | ResetStopped | SetCanStart | AwaitStarted
    | LeaveBlock | ClearEntered | CountBlock | ReturnBlock
    | AwaitFilled | EnterBlock | MarkEntered
    | NoteCount | TestNeedStart | RaiseStop | TestEntered | StopLeave | StopClearEntered | StopReturn | AwaitStopped
    | DrainTest | DrainTake | DrainReturn | SetNeedStart
    | RaiseExit | WakeForExit | AwaitThread | Closed

  /** What the writing thread is about to do. */
  datatype WriterPc =
    | AwaitStart | AnswerStart | TestExit | TestStop | ReportCount | AnswerStop
    | MoveEnter | MoveLeave | AwaitFree | FillBlock | ReleaseFilled | Exited

  /**
   * The shared record, the semaphores and events, and where both threads are. The last three fields are history: how many
   * blocks this cycle has made, how many have been taken, and how many the reader has counted.
   */
  datatype Sync = Sync(
    numBlocks: nat,
    needStart: bool, stopWriting: bool, exit: bool, csWasEntered: bool, numProcessed: nat,
    canStart: bool, wasStarted: bool, wasStopped: bool,
    free: nat, filled: nat, cs: Owner,
    r: ReaderPc, closing: bool, myNumBlocks: nat,
    w: WriterPc, blockIndex: nat,
    made: nat, taken: nat, counted: nat)

  /** What the reading side asks for when it is free to ask. */
  datatype Request = GetNextBlock | StopWriting | Destruct | Enter | Leave

  function Next(x: nat): nat { (x + 1) % WORD }

  /** The state after creation. */
  ghost predicate Initial(s: Sync) {
    && 0 < s.numBlocks < WORD && WORD % s.numBlocks == 0
    && s.needStart && !s.csWasEntered && s.cs == Nobody && !s.canStart && !s.wasStarted && !s.wasStopped
    && s.free == s.numBlocks && s.filled == 0 && s.r == Ready && !s.closing && s.w == AwaitStart
    && s.made == s.taken == s.counted == 0 && s.numProcessed < WORD && s.myNumBlocks < WORD && s.blockIndex == 0
  }

  /** One step of the reading thread; a wait that has to go on is no step. */
  function ReaderStep(s: Sync, q: Request): Option<Sync> {
    match s.r
    case Ready =>
      (match q
       case GetNextBlock =>
         if s.needStart then Some(s.(r := FirstCount))
         else if s.csWasEntered then Some(s.(r := LeaveBlock)) else None
       case StopWriting => Some(s.(r := NoteCount))
       case Destruct => Some(s.(r := NoteCount, closing := true))
       case Enter => if !s.needStart && !s.csWasEntered then Some(s.(r := EnterBlock)) else None
       case Leave => if !s.needStart && s.csWasEntered && s.cs == Reader then Some(s.(cs := Nobody, r := PauseClear)) else None)
    case PauseClear => Some(s.(csWasEntered := false, r := Ready))
    case FirstCount => Some(s.(numProcessed := 1, r := ClearNeedStart, counted := 1, taken := 0))
    case ClearNeedStart => Some(s.(needStart := false, r := ClearStop))
    case ClearStop => Some(s.(stopWriting := false, r := ClearExit))
    case ClearExit => Some(s.(exit := false, r := ResetStarted))
    case ResetStarted => Some(s.(wasStarted := false, r := ResetStopped))
    case ResetStopped => Some(s.(wasStopped := false, r := SetCanStart))
    case SetCanStart => Some(s.(canStart := true, r := AwaitStarted))
    case AwaitStarted => if s.wasStarted then Some(s.(wasStarted := false, r := AwaitFilled)) else None
    case LeaveBlock => if s.cs == Reader then Some(s.(cs := Nobody, r := ClearEntered)) else None
    case ClearEntered => Some(s.(csWasEntered := false, r := CountBlock))
    case CountBlock => Some(s.(numProcessed := Next(s.numProcessed), r := ReturnBlock, counted := s.counted + 1))
    case ReturnBlock => if s.free < s.numBlocks then Some(s.(free := s.free + 1, r := AwaitFilled)) else None
    case AwaitFilled => if s.filled > 0 then Some(s.(filled := s.filled - 1, r := EnterBlock, taken := s.taken + 1)) else None
    case EnterBlock => if s.cs == Nobody then Some(s.(cs := Reader, r := MarkEntered)) else None
    case MarkEntered => Some(s.(csWasEntered := true, r := Ready))
    case NoteCount => Some(s.(myNumBlocks := s.numProcessed, r := TestNeedStart))
    case TestNeedStart => if s.needStart then Some(s.(r := if s.closing then RaiseExit else Ready)) else Some(s.(r := RaiseStop))
    case RaiseStop => Some(s.(stopWriting := true, r := TestEntered))
    case TestEntered => Some(s.(r := if s.csWasEntered then StopLeave else StopReturn))
    case StopLeave => if s.cs == Reader then Some(s.(cs := Nobody, r := StopClearEntered)) else None
    case StopClearEntered => Some(s.(csWasEntered := false, r := StopReturn))
    case StopReturn => if s.free < s.numBlocks then Some(s.(free := s.free + 1, r := AwaitStopped)) else None
    case AwaitStopped => if s.wasStopped then Some(s.(wasStopped := false, r := DrainTest)) else None
    case DrainTest =>
      Some(s.(r := if s.myNumBlocks == s.numProcessed then SetNeedStart else DrainTake, myNumBlocks := Next(s.myNumBlocks)))
    case DrainTake => if s.filled > 0 then Some(s.(filled := s.filled - 1, r := DrainReturn, taken := s.taken + 1)) else None
    case DrainReturn => if s.free < s.numBlocks then Some(s.(free := s.free + 1, r := DrainTest)) else None
    case SetNeedStart => Some(s.(needStart := true, r := if s.closing then RaiseExit else Ready))
    case RaiseExit => Some(s.(exit := true, r := WakeForExit))
    case WakeForExit => Some(s.(canStart := s.canStart || s.needStart, r := AwaitThread))
    case AwaitThread => if s.w == Exited then Some(s.(r := Closed)) else None
    case Closed => None
  }

  /** One step of the writing thread. `move` says whether the match finder's window has to move before the next block. */
  function WriterStep(s: Sync, move: bool): Option<Sync> {
    match s.w
    case AwaitStart => if s.canStart then Some(s.(canStart := false, w := AnswerStart, blockIndex := 0, made := 0)) else None
    case AnswerStart => Some(s.(wasStarted := true, w := TestExit))
    case TestExit => Some(s.(w := if s.exit then Exited else TestStop))
    case TestStop => Some(s.(w := if s.stopWriting then ReportCount else if move then MoveEnter else AwaitFree))
    case ReportCount => Some(s.(numProcessed := s.blockIndex, w := AnswerStop))
    case AnswerStop => Some(s.(wasStopped := true, w := AwaitStart))
    case MoveEnter => if s.cs == Nobody then Some(s.(cs := Writer, w := MoveLeave)) else None
    case MoveLeave => if s.cs == Writer then Some(s.(cs := Nobody, w := TestExit)) else None
    case AwaitFree => if s.free > 0 then Some(s.(free := s.free - 1, w := FillBlock)) else None
    case FillBlock => Some(s.(blockIndex := Next(s.blockIndex), w := ReleaseFilled, made := s.made + 1))
    case ReleaseFilled => if s.filled < s.numBlocks then Some(s.(filled := s.filled + 1, w := TestExit)) else None
    case Exited => None
  }

  /** Some interleaved step leads from `s` to `t`. */
  ghost predicate Step(s: Sync, t: Sync) {
    (exists q :: ReaderStep(s, q) == Some(t)) || (exists move :: WriterStep(s, move) == Some(t))
  }

  // ---------- what every interleaving keeps ----------

  /** The reader is in the part of its code where a cycle has been started and not yet stopped. */
  predicate Started(s: Sync) {
    match s.r
    case PauseClear | AwaitStarted | LeaveBlock | ClearEntered | CountBlock | ReturnBlock | AwaitFilled | EnterBlock | MarkEntered
      | RaiseStop | TestEntered | StopLeave | StopClearEntered | StopReturn | AwaitStopped | DrainTest | DrainTake | DrainReturn
      | SetNeedStart => true
    case Ready | NoteCount | TestNeedStart => !s.needStart
    case _ => false
  }

  /** The reader has a block. */
  predicate ReaderHolds(s: Sync) {
    match s.r
    case PauseClear | LeaveBlock | ClearEntered | CountBlock | ReturnBlock | EnterBlock | MarkEntered
      | RaiseStop | TestEntered | StopLeave | StopClearEntered | StopReturn | DrainReturn => true
    case Ready | NoteCount | TestNeedStart => !s.needStart
    case _ => false
  }

  /** The writer has a block. */
  predicate WriterHolds(s: Sync) {
    s.w.FillBlock? || s.w.ReleaseFilled?
  }

  function One(b: bool): nat { if b then 1 else 0 }

  /** No block is lost or doubled. */
  ghost predicate Conserved(s: Sync) {
    && 0 < s.numBlocks < WORD && WORD % s.numBlocks == 0
    && s.free + s.filled + One(ReaderHolds(s)) + One(WriterHolds(s)) == s.numBlocks
  }

  /** The reader has raised the stop flag for a writer it started. */
  predicate Stopping(s: Sync) {
    match s.r
    case TestEntered | StopLeave | StopClearEntered | StopReturn | AwaitStopped | DrainTest | DrainTake | DrainReturn | SetNeedStart => true
    case _ => false
  }

  predicate Drained(s: Sync) {
    s.r.DrainTest? || s.r.DrainTake? || s.r.DrainReturn? || s.r.SetNeedStart?
  }

  predicate Closing(s: Sync) {
    s.r.RaiseExit? || s.r.WakeForExit? || s.r.AwaitThread? || s.r.Closed?
  }

  /** Who holds the critical section, and that the flag about it is right where it is read. */
  ghost predicate Sectioned(s: Sync) {
    && (s.cs == Writer <==> s.w.MoveLeave?)
    && (match s.r
        case LeaveBlock | StopLeave | MarkEntered => s.cs == Reader
        case Ready | NoteCount | TestNeedStart | RaiseStop | TestEntered => s.csWasEntered <==> s.cs == Reader
        case _ => s.cs != Reader)
    && (s.r.StopLeave? || s.r.LeaveBlock? ==> s.csWasEntered)
    && (!Started(s) ==> s.cs == Nobody)
    && (match s.r case PauseClear | ClearEntered | MarkEntered | StopClearEntered | LeaveBlock | StopLeave => true
                  case Ready | NoteCount | TestNeedStart | RaiseStop | TestEntered => s.needStart ==> !s.csWasEntered
                  case _ => !s.csWasEntered)
  }

  /** The writer is between answering a start and answering a stop. */
  predicate Running(s: Sync) {
    match s.w
    case TestExit | TestStop | MoveEnter | MoveLeave | AwaitFree | FillBlock | ReleaseFilled => true
    case _ => false
  }

  /** Where the two threads can be at once, with the flags and events that say so. */
  ghost predicate Phased(s: Sync) {
    if Closing(s) then
      && s.needStart && s.closing && s.free == s.numBlocks && s.filled == 0
      && (match s.r
          case RaiseExit => s.w.AwaitStart? && !s.canStart
          case WakeForExit => s.w.AwaitStart? && !s.canStart && s.exit
          case AwaitThread => s.exit && (if s.canStart then s.w.AwaitStart? else s.w.AnswerStart? || s.w.TestExit? || s.w.Exited?)
          case _ => s.w.Exited?)
    else if !Started(s) then
      && s.w.AwaitStart? && !s.canStart && s.free == s.numBlocks && s.filled == 0
      && (s.needStart <==> (s.r.Ready? || s.r.NoteCount? || s.r.TestNeedStart? || s.r.FirstCount? || s.r.ClearNeedStart?))
      && ((s.r.ClearExit? || s.r.ResetStarted? || s.r.ResetStopped? || s.r.SetCanStart?) ==> !s.stopWriting)
      && ((s.r.ResetStarted? || s.r.ResetStopped? || s.r.SetCanStart?) ==> !s.exit)
      && ((s.r.ResetStopped? || s.r.SetCanStart?) ==> !s.wasStarted)
      && (s.r.SetCanStart? ==> !s.wasStopped)
    else if s.r.AwaitStarted? then
      && !s.needStart && !s.stopWriting && !s.exit && !s.wasStopped
      && (if s.w.AwaitStart? then s.canStart && !s.wasStarted
          else !s.canStart && (if s.w.AnswerStart? then !s.wasStarted else Running(s) && s.wasStarted))
    else if !Stopping(s) then
      !s.needStart && !s.stopWriting && !s.exit && !s.canStart && !s.wasStarted && !s.wasStopped && Running(s)
    else if !Drained(s) then
      && !s.needStart && s.stopWriting && !s.exit && !s.canStart && !s.wasStarted
      && (s.wasStopped <==> s.w.AwaitStart?) && (s.w.AwaitStart? || s.w.ReportCount? || s.w.AnswerStop? || Running(s))
      && (s.r.AwaitStopped? && s.w.AwaitFree? ==> s.free > 0)
    else
      !s.needStart && s.stopWriting && !s.exit && !s.canStart && !s.wasStarted && !s.wasStopped && s.w.AwaitStart?
  }

  /** The reader has counted a block it does not have yet. */
  predicate Ahead(s: Sync) {
    match s.r
    case ReturnBlock | AwaitFilled | AwaitStarted | ClearNeedStart | ClearStop | ClearExit | ResetStarted | ResetStopped
      | SetCanStart => true
    case _ => false
  }

  /** The writer has told how many blocks it made in this cycle. */
  predicate Reported(s: Sync) {
    Stopping(s) && (s.w.AnswerStop? || s.w.AwaitStart?)
  }

  /** The numbers both threads keep agree with what has been made and taken. */
  ghost predicate Counted(s: Sync) {
    && s.blockIndex == s.made % WORD && s.numProcessed < WORD && s.myNumBlocks < WORD
    && (Started(s) && !(s.r.AwaitStarted? && (s.w.AwaitStart? || s.w.AnswerStart?)) ==>
          s.taken + s.filled + One(s.w.ReleaseFilled?) == s.made)
    && (s.r.AwaitStarted? && (s.w.AwaitStart? || s.w.AnswerStart?) ==> s.filled == 0 && (s.w.AnswerStart? ==> s.made == 0))
    && (Started(s) || Ahead(s) ==>
      && (!Drained(s) ==> s.counted == s.taken + One(Ahead(s)))
      && (if Reported(s) then s.numProcessed == s.made % WORD else s.numProcessed == s.counted % WORD)
      && (s.r.TestNeedStart? || s.r.RaiseStop? || (Stopping(s) && !Drained(s)) ==> s.myNumBlocks == s.counted % WORD)
      && (s.r.DrainTest? || s.r.DrainReturn? ==> s.myNumBlocks == s.taken % WORD)
      && (s.r.DrainTake? ==> s.myNumBlocks == (s.taken + 1) % WORD && s.filled > 0)
      && (s.r.SetNeedStart? ==> s.taken == s.made))
    && (s.r.AwaitStarted? || (Ahead(s) && !Started(s)) ==> s.taken == 0)
    && (ReaderHolds(s) ==> s.taken >= 1)
  }

  ghost predicate Inv(s: Sync) {
    Conserved(s) && Sectioned(s) && Phased(s) && Counted(s)
  }

  // ---------- work left ----------

  /** A block is being handed over. */
  predicate HandingOff(s: Sync) {
    match s.r
    case FirstCount | ClearNeedStart | ClearStop | ClearExit | ResetStarted | ResetStopped | SetCanStart | AwaitStarted
      | LeaveBlock | ClearEntered | CountBlock | ReturnBlock | AwaitFilled | EnterBlock | MarkEntered => true
    case _ => false
  }

  /** A stop with its flag raised, or the closing down, is under way. */
  predicate Ending(s: Sync) {
    Stopping(s) || s.r.RaiseExit? || s.r.WakeForExit? || s.r.AwaitThread?
  }

  function ReaderRank(r: ReaderPc): nat {
    match r
    case FirstCount => 30
    case ClearNeedStart => 29
    case ClearStop => 28
    case ClearExit => 27
    case ResetStarted => 26
    case ResetStopped => 25
    case SetCanStart | LeaveBlock => 24
    case ClearEntered => 23
    case CountBlock => 22
    case ReturnBlock => 21
    case AwaitStarted => 4
    case AwaitFilled => 3
    case EnterBlock => 2
    case MarkEntered => 1
    case TestEntered => 20
    case StopLeave => 19
    case StopClearEntered => 18
    case StopReturn => 17
    case AwaitStopped => 16
    case DrainReturn => 15
    case DrainTest => 14
    case DrainTake => 13
    case SetNeedStart => 12
    case RaiseExit => 10
    case WakeForExit => 9
    case AwaitThread => 1
    case _ => 0
  }

  function WriterRank(w: WriterPc): nat {
    match w
    case FillBlock => 10
    case ReleaseFilled => 9
    case MoveEnter => 7
    case MoveLeave => 6
    case AnswerStart => 6
    case TestExit => 5
    case TestStop => 4
    case ReportCount | AwaitFree => 3
    case AnswerStop => 2
    case AwaitStart => 1
    case Exited => 0
  }

  /** More than the steps left to both threads before the hand-off is over, not counting moves of the window. */
  function HandWork(s: Sync): nat {
    8 * s.free + 6 * One(s.canStart) + ReaderRank(s.r) + WriterRank(s.w)
  }

  /** More than the steps left to both threads before the stop or the closing down is over. */
  function EndWork(s: Sync): nat {
    3 * (s.filled + One(WriterHolds(s))) + 11 * One(s.w.AwaitFree?) + 6 * One(s.canStart) + ReaderRank(s.r) + WriterRank(s.w)
  }

  /** The writer begins to move the window. */
  predicate Moves(s: Sync, t: Sync) {
    s.w.TestStop? && t.w.MoveEnter?
  }

  /** The step brings a pending hand-off, stop or closing down nearer to its end, unless it begins a move of the window. */
  predicate Shrinks(s: Sync, t: Sync) {
    && (HandingOff(s) ==> t.r.Ready? || (HandingOff(t) && HandWork(t) < HandWork(s) + 4 * One(Moves(s, t))))
    && (Ending(s) ==> t.r.Ready? || t.r.Closed? || (Ending(t) && EndWork(t) < EndWork(s)))
  }

  /** Both threads are in the same cycle. */
  predicate Active(s: Sync) {
    Started(s) && !(s.r.AwaitStarted? && (s.w.AwaitStart? || s.w.AnswerStart?))
  }

  /** The number of the oldest block of the cycle that has not been given back. */
  function Oldest(s: Sync): int {
    s.taken - One(ReaderHolds(s))
  }

  /** The step puts a block into the ring. */
  predicate Fills(s: Sync, t: Sync) {
    s.w.FillBlock? && t.w.ReleaseFilled?
  }

  /** A cycle begins with no blocks; within it blocks are made one by one, and given back in turn. */
  predicate Flows(s: Sync, t: Sync) {
    && t.numBlocks == s.numBlocks
    && (Active(t) ==> if Active(s) then t.made == s.made + One(Fills(s, t)) && Oldest(t) >= Oldest(s) else t.made == 0)
  }

  lemma WordNext(x: nat)
    ensures Next(x % WORD) == (x + 1) % WORD
  {
  }

  lemma WordSame(x: nat, y: nat)
    requires x <= y < x + WORD && x % WORD == y % WORD
    ensures x == y
  {
  }

  lemma InitialInv(s: Sync)
    requires Initial(s)
    ensures Inv(s)
  {
  }

  lemma WriterKeepsAwaitStart(s: Sync, move: bool, t: Sync)
    requires Inv(s) && WriterStep(s, move) == Some(t) && s.w.AwaitStart?
    ensures Inv(t) && Shrinks(s, t) && Flows(s, t)
  {
  }

  lemma WriterKeepsAnswerStart(s: Sync, move: bool, t: Sync)
    requires Inv(s) && WriterStep(s, move) == Some(t) && s.w.AnswerStart?
    ensures Inv(t) && Shrinks(s, t) && Flows(s, t)
  {
  }

  lemma WriterShrinksTestExit(s: Sync, move: bool, t: Sync)
    requires Inv(s) && WriterStep(s, move) == Some(t) && s.w.TestExit?
    ensures Shrinks(s, t) && Flows(s, t)
  {
    hide Conserved, Counted, Sectioned;
  }

  lemma WriterKeepsTestExit(s: Sync, move: bool, t: Sync)
    requires Inv(s) && WriterStep(s, move) == Some(t) && s.w.TestExit?
    ensures Inv(t)
  {
  }

  lemma WriterShrinksTestStop(s: Sync, move: bool, t: Sync)
    requires Inv(s) && WriterStep(s, move) == Some(t) && s.w.TestStop?
    ensures Shrinks(s, t) && Flows(s, t)
  {
    hide Conserved, Counted, Sectioned;
  }

  lemma WriterKeepsTestStop(s: Sync, move: bool, t: Sync)
    requires Inv(s) && WriterStep(s, move) == Some(t) && s.w.TestStop?
    ensures Inv(t)
  {
  }

  lemma WriterKeepsReportCount(s: Sync, move: bool, t: Sync)
    requires Inv(s) && WriterStep(s, move) == Some(t) && s.w.ReportCount?
    ensures Inv(t) && Shrinks(s, t) && Flows(s, t)
  {
  }

  lemma WriterKeepsAnswerStop(s: Sync, move: bool, t: Sync)
    requires Inv(s) && WriterStep(s, move) == Some(t) && s.w.AnswerStop?
    ensures Inv(t) && Shrinks(s, t) && Flows(s, t)
  {
  }

  lemma WriterShrinksMoveEnter(s: Sync, move: bool, t: Sync)
    requires Inv(s) && WriterStep(s, move) == Some(t) && s.w.MoveEnter?
    ensures Shrinks(s, t) && Flows(s, t)
  {
    hide Conserved, Counted, Sectioned;
  }

  lemma WriterKeepsMoveEnter(s: Sync, move: bool, t: Sync)
    requires Inv(s) && WriterStep(s, move) == Some(t) && s.w.MoveEnter?
    ensures Inv(t)
  {
  }

  lemma WriterShrinksMoveLeave(s: Sync, move: bool, t: Sync)
    requires Inv(s) && WriterStep(s, move) == Some(t) && s.w.MoveLeave?
    ensures Shrinks(s, t) && Flows(s, t)
  {
    hide Conserved, Counted, Sectioned;
  }

  lemma WriterKeepsMoveLeave(s: Sync, move: bool, t: Sync)
    requires Inv(s) && WriterStep(s, move) == Some(t) && s.w.MoveLeave?
    ensures Inv(t)
  {
  }

  lemma WriterShrinksAwaitFree(s: Sync, move: bool, t: Sync)
    requires Inv(s) && WriterStep(s, move) == Some(t) && s.w.AwaitFree?
    ensures Shrinks(s, t) && Flows(s, t)
  {
    hide Conserved, Counted, Sectioned;
  }

  lemma WriterKeepsAwaitFree(s: Sync, move: bool, t: Sync)
    requires Inv(s) && WriterStep(s, move) == Some(t) && s.w.AwaitFree?
    ensures Inv(t)
  {
  }

  lemma WriterShrinksFillBlock(s: Sync, move: bool, t: Sync)
    requires Inv(s) && WriterStep(s, move) == Some(t) && s.w.FillBlock?
    ensures Shrinks(s, t) && Flows(s, t)
  {
    hide Conserved, Counted, Sectioned;
  }

  lemma WriterKeepsFillBlock(s: Sync, move: bool, t: Sync)
    requires Inv(s) && WriterStep(s, move) == Some(t) && s.w.FillBlock?
    ensures Inv(t)
  {
    WordNext(s.made);
  }

  lemma WriterShrinksReleaseFilled(s: Sync, move: bool, t: Sync)
    requires Inv(s) && WriterStep(s, move) == Some(t) && s.w.ReleaseFilled?
    ensures Shrinks(s, t) && Flows(s, t)
  {
    hide Conserved, Counted, Sectioned;
  }

  lemma WriterKeepsReleaseFilled(s: Sync, move: bool, t: Sync)
    requires Inv(s) && WriterStep(s, move) == Some(t) && s.w.ReleaseFilled?
    ensures Inv(t)
  {
  }

  lemma ReaderKeepsPauseClear(s: Sync, q: Request, t: Sync)
    requires Inv(s) && ReaderStep(s, q) == Some(t) && s.r.PauseClear?
    ensures Inv(t) && Shrinks(s, t) && Flows(s, t)
  {
  }

  lemma ReaderKeepsFirstCount(s: Sync, q: Request, t: Sync)
    requires Inv(s) && ReaderStep(s, q) == Some(t) && s.r.FirstCount?
    ensures Inv(t) && Shrinks(s, t) && Flows(s, t)
  {
  }

  lemma ReaderKeepsClearNeedStart(s: Sync, q: Request, t: Sync)
    requires Inv(s) && ReaderStep(s, q) == Some(t) && s.r.ClearNeedStart?
    ensures Inv(t) && Shrinks(s, t) && Flows(s, t)
  {
  }

  lemma ReaderKeepsClearStop(s: Sync, q: Request, t: Sync)
    requires Inv(s) && ReaderStep(s, q) == Some(t) && s.r.ClearStop?
    ensures Inv(t) && Shrinks(s, t) && Flows(s, t)
  {
  }

  lemma ReaderKeepsClearExit(s: Sync, q: Request, t: Sync)
    requires Inv(s) && ReaderStep(s, q) == Some(t) && s.r.ClearExit?
    ensures Inv(t) && Shrinks(s, t) && Flows(s, t)
  {
  }

  lemma ReaderKeepsResetStarted(s: Sync, q: Request, t: Sync)
    requires Inv(s) && ReaderStep(s, q) == Some(t) && s.r.ResetStarted?
    ensures Inv(t) && Shrinks(s, t) && Flows(s, t)
  {
  }

  lemma ReaderKeepsResetStopped(s: Sync, q: Request, t: Sync)
    requires Inv(s) && ReaderStep(s, q) == Some(t) && s.r.ResetStopped?
    ensures Inv(t) && Shrinks(s, t) && Flows(s, t)
  {
  }

  lemma ReaderKeepsSetCanStart(s: Sync, q: Request, t: Sync)
    requires Inv(s) && ReaderStep(s, q) == Some(t) && s.r.SetCanStart?
    ensures Inv(t) && Shrinks(s, t) && Flows(s, t)
  {
  }

  lemma ReaderKeepsAwaitStarted(s: Sync, q: Request, t: Sync)
    requires Inv(s) && ReaderStep(s, q) == Some(t) && s.r.AwaitStarted?
    ensures Inv(t) && Shrinks(s, t) && Flows(s, t)
  {
  }

  lemma ReaderKeepsLeaveBlock(s: Sync, q: Request, t: Sync)
    requires Inv(s) && ReaderStep(s, q) == Some(t) && s.r.LeaveBlock?
    ensures Inv(t) && Shrinks(s, t) && Flows(s, t)
  {
  }

  lemma ReaderKeepsClearEntered(s: Sync, q: Request, t: Sync)
    requires Inv(s) && ReaderStep(s, q) == Some(t) && s.r.ClearEntered?
    ensures Inv(t) && Shrinks(s, t) && Flows(s, t)
  {
  }

  lemma ReaderKeepsCountBlock(s: Sync, q: Request, t: Sync)
    requires Inv(s) && ReaderStep(s, q) == Some(t) && s.r.CountBlock?
    ensures Inv(t) && Shrinks(s, t) && Flows(s, t)
  {
    WordNext(s.counted);
  }

  lemma ReaderKeepsReturnBlock(s: Sync, q: Request, t: Sync)
    requires Inv(s) && ReaderStep(s, q) == Some(t) && s.r.ReturnBlock?
    ensures Inv(t) && Shrinks(s, t) && Flows(s, t)
  {
  }

  lemma ReaderKeepsAwaitFilled(s: Sync, q: Request, t: Sync)
    requires Inv(s) && ReaderStep(s, q) == Some(t) && s.r.AwaitFilled?
    ensures Inv(t) && Shrinks(s, t) && Flows(s, t)
  {
  }

  lemma ReaderKeepsEnterBlock(s: Sync, q: Request, t: Sync)
    requires Inv(s) && ReaderStep(s, q) == Some(t) && s.r.EnterBlock?
    ensures Inv(t) && Shrinks(s, t) && Flows(s, t)
  {
  }

  lemma ReaderKeepsMarkEntered(s: Sync, q: Request, t: Sync)
    requires Inv(s) && ReaderStep(s, q) == Some(t) && s.r.MarkEntered?
    ensures Inv(t) && Shrinks(s, t) && Flows(s, t)
  {
  }

  lemma ReaderKeepsNoteCount(s: Sync, q: Request, t: Sync)
    requires Inv(s) && ReaderStep(s, q) == Some(t) && s.r.NoteCount?
    ensures Inv(t) && Shrinks(s, t) && Flows(s, t)
  {
  }

  lemma ReaderKeepsRaiseStop(s: Sync, q: Request, t: Sync)
    requires Inv(s) && ReaderStep(s, q) == Some(t) && s.r.RaiseStop?
    ensures Inv(t) && Shrinks(s, t) && Flows(s, t)
  {
  }

  lemma ReaderKeepsTestEntered(s: Sync, q: Request, t: Sync)
    requires Inv(s) && ReaderStep(s, q) == Some(t) && s.r.TestEntered?
    ensures Inv(t) && Shrinks(s, t) && Flows(s, t)
  {
  }

  lemma ReaderKeepsStopLeave(s: Sync, q: Request, t: Sync)
    requires Inv(s) && ReaderStep(s, q) == Some(t) && s.r.StopLeave?
    ensures Inv(t) && Shrinks(s, t) && Flows(s, t)
  {
  }

  lemma ReaderKeepsStopClearEntered(s: Sync, q: Request, t: Sync)
    requires Inv(s) && ReaderStep(s, q) == Some(t) && s.r.StopClearEntered?
    ensures Inv(t) && Shrinks(s, t) && Flows(s, t)
  {
  }

  lemma ReaderKeepsStopReturn(s: Sync, q: Request, t: Sync)
    requires Inv(s) && ReaderStep(s, q) == Some(t) && s.r.StopReturn?
    ensures Inv(t) && Shrinks(s, t) && Flows(s, t)
  {
  }

  lemma ReaderKeepsAwaitStopped(s: Sync, q: Request, t: Sync)
    requires Inv(s) && ReaderStep(s, q) == Some(t) && s.r.AwaitStopped?
    ensures Inv(t) && Shrinks(s, t) && Flows(s, t)
  {
  }

  lemma ReaderKeepsDrainTest(s: Sync, q: Request, t: Sync)
    requires Inv(s) && ReaderStep(s, q) == Some(t) && s.r.DrainTest?
    ensures Inv(t) && Shrinks(s, t) && Flows(s, t)
  {
    WordNext(s.taken);
    if s.myNumBlocks == s.numProcessed {
      WordSame(s.taken, s.made);
    }
  }

  lemma ReaderKeepsDrainTake(s: Sync, q: Request, t: Sync)
    requires Inv(s) && ReaderStep(s, q) == Some(t) && s.r.DrainTake?
    ensures Inv(t) && Shrinks(s, t) && Flows(s, t)
  {
  }

  lemma ReaderKeepsDrainReturn(s: Sync, q: Request, t: Sync)
    requires Inv(s) && ReaderStep(s, q) == Some(t) && s.r.DrainReturn?
    ensures Inv(t) && Shrinks(s, t) && Flows(s, t)
  {
  }

  lemma ReaderKeepsSetNeedStart(s: Sync, q: Request, t: Sync)
    requires Inv(s) && ReaderStep(s, q) == Some(t) && s.r.SetNeedStart?
    ensures Inv(t) && Shrinks(s, t) && Flows(s, t)
  {
  }

  lemma ReaderKeepsRaiseExit(s: Sync, q: Request, t: Sync)
    requires Inv(s) && ReaderStep(s, q) == Some(t) && s.r.RaiseExit?
    ensures Inv(t) && Shrinks(s, t) && Flows(s, t)
  {
  }

  lemma ReaderKeepsWakeForExit(s: Sync, q: Request, t: Sync)
    requires Inv(s) && ReaderStep(s, q) == Some(t) && s.r.WakeForExit?
    ensures Inv(t) && Shrinks(s, t) && Flows(s, t)
  {
  }

  lemma ReaderKeepsAwaitThread(s: Sync, q: Request, t: Sync)
    requires Inv(s) && ReaderStep(s, q) == Some(t) && s.r.AwaitThread?
    ensures Inv(t) && Shrinks(s, t) && Flows(s, t)
  {
  }

  lemma ReaderKeepsReadyGetNextBlock(s: Sync, t: Sync)
    requires Inv(s) && ReaderStep(s, GetNextBlock) == Some(t) && s.r.Ready?
    ensures Inv(t) && Shrinks(s, t) && Flows(s, t)
  {
  }

  lemma ReaderKeepsReadyStopWriting(s: Sync, t: Sync)
    requires Inv(s) && ReaderStep(s, StopWriting) == Some(t) && s.r.Ready?
    ensures Inv(t) && Shrinks(s, t) && Flows(s, t)
  {
  }

  lemma ReaderKeepsReadyDestruct(s: Sync, t: Sync)
    requires Inv(s) && ReaderStep(s, Destruct) == Some(t) && s.r.Ready?
    ensures Inv(t) && Shrinks(s, t) && Flows(s, t)
  {
  }

  lemma ReaderKeepsReadyEnter(s: Sync, t: Sync)
    requires Inv(s) && ReaderStep(s, Enter) == Some(t) && s.r.Ready?
    ensures Inv(t) && Shrinks(s, t) && Flows(s, t)
  {
  }

  lemma ReaderKeepsReadyLeave(s: Sync, t: Sync)
    requires Inv(s) && ReaderStep(s, Leave) == Some(t) && s.r.Ready?
    ensures Inv(t) && Shrinks(s, t) && Flows(s, t)
  {
  }

  lemma ReaderKeepsTestIdle(s: Sync, q: Request, t: Sync)
    requires Inv(s) && ReaderStep(s, q) == Some(t) && s.r.TestNeedStart? && s.needStart
    ensures Inv(t) && Shrinks(s, t) && Flows(s, t)
  {
  }

  lemma ReaderKeepsTestStarted(s: Sync, q: Request, t: Sync)
    requires Inv(s) && ReaderStep(s, q) == Some(t) && s.r.TestNeedStart? && !s.needStart
    ensures Inv(t) && Shrinks(s, t) && Flows(s, t)
  {
  }

  lemma NoStep(s: Sync, q: Request, move: bool)
    ensures s.w.Exited? ==> WriterStep(s, move).None?
    ensures s.r.Closed? ==> ReaderStep(s, q).None?
  {
  }

  /** Every step of the writing thread keeps the invariant. */
  lemma WriterKeeps(s: Sync, move: bool, t: Sync)
    requires Inv(s) && WriterStep(s, move) == Some(t)
    ensures Inv(t) && Shrinks(s, t) && Flows(s, t)
  {
    hide Inv, Shrinks, Flows, WriterStep;
    match s.w
    case AwaitStart => WriterKeepsAwaitStart(s, move, t);
    case AnswerStart => WriterKeepsAnswerStart(s, move, t);
    case TestExit =>
      WriterKeepsTestExit(s, move, t);
      WriterShrinksTestExit(s, move, t);
    case TestStop =>
      WriterKeepsTestStop(s, move, t);
      WriterShrinksTestStop(s, move, t);
    case ReportCount => WriterKeepsReportCount(s, move, t);
    case AnswerStop => WriterKeepsAnswerStop(s, move, t);
    case MoveEnter =>
      WriterKeepsMoveEnter(s, move, t);
      WriterShrinksMoveEnter(s, move, t);
    case MoveLeave =>
      WriterKeepsMoveLeave(s, move, t);
      WriterShrinksMoveLeave(s, move, t);
    case AwaitFree =>
      WriterKeepsAwaitFree(s, move, t);
      WriterShrinksAwaitFree(s, move, t);
    case FillBlock =>
      WriterKeepsFillBlock(s, move, t);
      WriterShrinksFillBlock(s, move, t);
    case ReleaseFilled =>
      WriterKeepsReleaseFilled(s, move, t);
      WriterShrinksReleaseFilled(s, move, t);
    case Exited => NoStep(s, GetNextBlock, move);
  }

  predicate AtEnding(s: Sync) {
    match s.r
    case NoteCount | TestNeedStart | RaiseStop | RaiseExit | WakeForExit | AwaitThread => true
    case _ => Stopping(s)
  }

  lemma ReaderKeepsGoing(s: Sync, q: Request, t: Sync)
    requires Inv(s) && ReaderStep(s, q) == Some(t) && !AtEnding(s)
    ensures Inv(t) && Shrinks(s, t) && Flows(s, t)
  {
    hide Inv, Shrinks, Flows, ReaderStep;
    match s.r
    case Ready =>
      match q {
        case GetNextBlock => ReaderKeepsReadyGetNextBlock(s, t);
        case StopWriting => ReaderKeepsReadyStopWriting(s, t);
        case Destruct => ReaderKeepsReadyDestruct(s, t);
        case Enter => ReaderKeepsReadyEnter(s, t);
        case Leave => ReaderKeepsReadyLeave(s, t);
      }
    case PauseClear => ReaderKeepsPauseClear(s, q, t);
    case FirstCount => ReaderKeepsFirstCount(s, q, t);
    case ClearNeedStart => ReaderKeepsClearNeedStart(s, q, t);
    case ClearStop => ReaderKeepsClearStop(s, q, t);
    case ClearExit => ReaderKeepsClearExit(s, q, t);
    case ResetStarted => ReaderKeepsResetStarted(s, q, t);
    case ResetStopped => ReaderKeepsResetStopped(s, q, t);
    case SetCanStart => ReaderKeepsSetCanStart(s, q, t);
    case AwaitStarted => ReaderKeepsAwaitStarted(s, q, t);
    case LeaveBlock => ReaderKeepsLeaveBlock(s, q, t);
    case ClearEntered => ReaderKeepsClearEntered(s, q, t);
    case CountBlock => ReaderKeepsCountBlock(s, q, t);
    case ReturnBlock => ReaderKeepsReturnBlock(s, q, t);
    case AwaitFilled => ReaderKeepsAwaitFilled(s, q, t);
    case EnterBlock => ReaderKeepsEnterBlock(s, q, t);
    case MarkEntered => ReaderKeepsMarkEntered(s, q, t);
    case Closed => NoStep(s, q, false);
  }

  lemma ReaderKeepsEnding(s: Sync, q: Request, t: Sync)
    requires Inv(s) && ReaderStep(s, q) == Some(t) && AtEnding(s)
    ensures Inv(t) && Shrinks(s, t) && Flows(s, t)
  {
    hide Inv, Shrinks, Flows, ReaderStep;
    match s.r
    case NoteCount => ReaderKeepsNoteCount(s, q, t);
    case TestNeedStart =>
      if s.needStart {
        ReaderKeepsTestIdle(s, q, t);
      } else {
        ReaderKeepsTestStarted(s, q, t);
      }
    case RaiseStop => ReaderKeepsRaiseStop(s, q, t);
    case TestEntered => ReaderKeepsTestEntered(s, q, t);
    case StopLeave => ReaderKeepsStopLeave(s, q, t);
    case StopClearEntered => ReaderKeepsStopClearEntered(s, q, t);
    case StopReturn => ReaderKeepsStopReturn(s, q, t);
    case AwaitStopped => ReaderKeepsAwaitStopped(s, q, t);
    case DrainTest => ReaderKeepsDrainTest(s, q, t);
    case DrainTake => ReaderKeepsDrainTake(s, q, t);
    case DrainReturn => ReaderKeepsDrainReturn(s, q, t);
    case SetNeedStart => ReaderKeepsSetNeedStart(s, q, t);
    case RaiseExit => ReaderKeepsRaiseExit(s, q, t);
    case WakeForExit => ReaderKeepsWakeForExit(s, q, t);
    case AwaitThread => ReaderKeepsAwaitThread(s, q, t);
  }

  /** Every step of the reading thread keeps the invariant. */
  lemma ReaderKeeps(s: Sync, q: Request, t: Sync)
    requires Inv(s) && ReaderStep(s, q) == Some(t)
    ensures Inv(t) && Shrinks(s, t) && Flows(s, t)
  {
    hide Inv, Shrinks, Flows, ReaderStep, AtEnding;
    if AtEnding(s) {
      ReaderKeepsEnding(s, q, t);
    } else {
      ReaderKeepsGoing(s, q, t);
    }
  }

  // ---------- what follows in every state reached ----------

  /** A run of the system from creation on, in any interleaving. */
  ghost predicate Run(states: seq<Sync>) {
    && states != [] && Initial(states[0])
    && forall i, j :: 0 <= i && j == i + 1 && j < |states| ==> Step(states[i], states[j])
  }

  lemma StepKeeps(s: Sync, t: Sync)
    requires Inv(s) && Step(s, t)
    ensures Inv(t) && Shrinks(s, t) && Flows(s, t)
  {
    hide Inv, Shrinks, Flows, ReaderStep, WriterStep;
    if q :| ReaderStep(s, q) == Some(t) {
      ReaderKeeps(s, q, t);
    } else {
      var move :| WriterStep(s, move) == Some(t);
      WriterKeeps(s, move, t);
    }
  }

  /** The invariant holds in every state of every run. */
  lemma {:induction false} RunsKeep(states: seq<Sync>, i: nat)
    requires Run(states) && i < |states|
    ensures Inv(states[i])
  {
    hide Inv, Step, Initial;
    if i == 0 {
      InitialInv(states[0]);
    } else {
      RunsKeep(states, i - 1);
      StepKeeps(states[i - 1], states[i]);
    }
  }

  /** A stopped reader finds all blocks free, none filled, and the writer waiting for the next start. */
  lemma StoppedClean(s: Sync)
    requires Inv(s) && s.r.Ready? && s.needStart
    ensures s.free == s.numBlocks && s.filled == 0 && s.w.AwaitStart? && s.cs.Nobody?
  {
    hide Counted;
  }

  /** Once the reader has closed down, the writing thread has ended. */
  lemma ClosedEnds(s: Sync)
    requires Inv(s) && s.r.Closed?
    ensures s.w.Exited?
  {
    hide Counted, Sectioned, Conserved;
  }

  /** No semaphore is released past its limit. */
  lemma ReleasesFit(s: Sync)
    requires Inv(s)
    ensures s.r.ReturnBlock? || s.r.StopReturn? || s.r.DrainReturn? ==> s.free < s.numBlocks
    ensures s.w.ReleaseFilled? ==> s.filled < s.numBlocks
  {
    hide Counted, Sectioned, Phased;
  }

  /** While a hand-off, a stop or the closing down is under way, some thread can step. */
  lemma NoDeadlock(s: Sync)
    requires Inv(s) && !s.r.Ready? && !s.r.Closed?
    ensures ReaderStep(s, GetNextBlock).Some? || WriterStep(s, false).Some?
  {
  }

  // ---------- the ring ----------

  /** The slot of the block the reader counted last: what it reads between hand-offs. */
  function ReaderSlot(s: Sync): nat
    requires s.numBlocks > 0
  {
    ((s.numProcessed + WORD - 1) % WORD) % s.numBlocks
  }

  /** The slot the writer fills. */
  function WriterSlot(s: Sync): nat
    requires s.numBlocks > 0
  {
    s.blockIndex % s.numBlocks
  }

  /** The ring's size divides the word, so wrapping a counter does not change its slot. */
  lemma SlotOfCounter(x: nat, n: nat)
    requires 0 < n && WORD % n == 0
    ensures (x % WORD) % n == x % n
  {
    var k, j := x / WORD, WORD / n;
    assert WORD == n * j;
    assert x == WORD * k + x % WORD;
    var y := x % WORD;
    assert WORD * k == n * (j * k);
    assert x == n * (j * k + y / n) + y % n;
    DivUnique(x, j * k + y / n, y % n, n);
  }

  lemma NearbyDiffer(x: nat, y: nat, n: nat)
    requires x < y < x + n
    ensures x % n != y % n
  {
    if x % n == y % n {
      var k := y / n - x / n;
      assert y - x == n * k by {
        assert x == n * (x / n) + x % n && y == n * (y / n) + y % n;
        assert n * (y / n) - n * (x / n) == n * (y / n - x / n);
      }
      if k >= 1 {
        MulAtLeast(n, k);
      }
      MulNegative(n, k);
      assert false;
    }
  }

  lemma Before(x: nat)
    requires x >= 1
    ensures (x % WORD + WORD - 1) % WORD == (x - 1) % WORD
  {
  }

  /** The writer never fills the block that the reader is reading. */
  lemma SlotsApart(s: Sync)
    requires Inv(s) && ReaderHolds(s) && !Ahead(s) && !Stopping(s) && s.w.FillBlock?
    ensures ReaderSlot(s) != WriterSlot(s)
  {
    hide Phased, Sectioned;
    assert s.numProcessed == s.counted % WORD && s.counted == s.taken && s.made == s.taken + s.filled;
    Before(s.counted);
    SlotOfCounter(s.counted - 1, s.numBlocks);
    SlotOfCounter(s.made, s.numBlocks);
    NearbyDiffer(s.taken - 1, s.made, s.numBlocks);
  }

  /** The number, within its cycle, of the block that was put last into each slot. */
  ghost function Contents(states: seq<Sync>): (ring: seq<int>)
    requires Run(states)
    ensures |ring| == states[|states| - 1].numBlocks > 0
    decreases |states|
  {
    var n := |states| - 1;
    RunsKeep(states, n);
    if n == 0 then seq(states[0].numBlocks, _ => -1)
    else
      RunsKeep(states, n - 1);
      StepKeeps(states[n - 1], states[n]);
      RingAfter(Contents(states[..n]), states[n - 1], states[n])
  }

  ghost function RingAfter(ring: seq<int>, s: Sync, t: Sync): (after: seq<int>)
    requires Inv(s) && Flows(s, t) && |ring| == s.numBlocks
    ensures |after| == t.numBlocks > 0
  {
    if Fills(s, t) then ring[WriterSlot(s) := s.made] else ring
  }

  /** Every block from the oldest on is in its slot. */
  ghost predicate InRing(s: Sync, ring: seq<int>) {
    && |ring| == s.numBlocks > 0
    && (Active(s) ==> forall b: nat :: Oldest(s) <= b < s.made ==> ring[b % s.numBlocks] == b)
  }

  lemma RingKeeps(s: Sync, t: Sync, ring: seq<int>)
    requires Inv(s) && Flows(s, t) && InRing(s, ring)
    ensures InRing(t, RingAfter(ring, s, t))
  {
    hide Phased, Sectioned;
    var after, n := RingAfter(ring, s, t), s.numBlocks;
    if Active(t) && Active(s) {
      SlotOfCounter(s.made, n);
      forall b: nat | Oldest(t) <= b < t.made ensures after[b % n] == b {
        if Fills(s, t) && b < s.made {
          NearbyDiffer(b, s.made, n);
        }
      }
    }
  }

  lemma {:induction false} RunFillsRing(states: seq<Sync>)
    requires Run(states)
    ensures InRing(states[|states| - 1], Contents(states))
    decreases |states|
  {
    hide Inv, Step, Initial, InRing, RingAfter, Shrinks, Flows;
    var n := |states| - 1;
    RunsKeep(states, n);
    if n == 0 {
      FirstRing(states[0], Contents(states));
    } else {
      RunsKeep(states, n - 1);
      StepKeeps(states[n - 1], states[n]);
      RunFillsRing(states[..n]);
      RingKeeps(states[n - 1], states[n], Contents(states[..n]));
    }
  }

  lemma FirstRing(s: Sync, ring: seq<int>)
    requires Initial(s) && |ring| == s.numBlocks
    ensures InRing(s, ring)
  {
  }

  /** In every run the `k`-th block that the reader gets in a cycle is the `k`-th block that the writer made in it. */
  lemma ReadsInOrder(states: seq<Sync>)
    requires Run(states)
    ensures var s, ring := states[|states| - 1], Contents(states);
      && |ring| == s.numBlocks
      && (ReaderHolds(s) && !Ahead(s) && !Stopping(s) ==> ring[ReaderSlot(s)] == s.taken - 1 && s.taken == s.counted <= s.made)
  {
    hide Contents, Sectioned;
    var s := states[|states| - 1];
    RunsKeep(states, |states| - 1);
    RunFillsRing(states);
    if ReaderHolds(s) && !Ahead(s) && !Stopping(s) {
      Before(s.counted);
      SlotOfCounter(s.counted - 1, s.numBlocks);
    }
  }

  /** The writer does not move the window while the reader, reading a block, is inside its section. */
  lemma MovesAlone(s: Sync)
    requires Inv(s) && s.r.Ready? && s.csWasEntered
    ensures !s.w.MoveLeave?
  {
    hide Counted, Phased, Conserved;
  }

  // ---------- pending operations end ----------

  /** A stretch of steps, in any interleaving, from a state that a run reaches. */
  ghost predicate Stretch(states: seq<Sync>) {
    && states != [] && Inv(states[0])
    && forall i, j :: 0 <= i && j == i + 1 && j < |states| ==> Step(states[i], states[j])
  }

  lemma StretchTail(states: seq<Sync>)
    requires Stretch(states) && |states| > 1
    ensures Stretch(states[1..]) && Shrinks(states[0], states[1])
  {
    hide Inv, Step, Shrinks;
    var t := states[1..];
    StepKeeps(states[0], states[1]);
    forall i, j | 0 <= i && j == i + 1 && j < |t| ensures Step(t[i], t[j]) {
      assert Step(states[j], states[j + 1]);
    }
  }

  /** Whatever the interleaving, a stop or closing down is over after so many steps. */
  lemma {:induction false} EndsInTime(states: seq<Sync>)
    requires Stretch(states) && forall i :: 0 <= i < |states| ==> Ending(states[i])
    ensures |states| <= EndWork(states[0]) + 1
    decreases |states|
  {
    hide Inv, Step, EndWork, HandingOff, HandWork;
    if |states| > 1 {
      StretchTail(states);
      EndsInTime(states[1..]);
      assert Ending(states[1]);
    }
  }

  /** The bounds on the steps left are linear in the number of blocks. */
  lemma WorkBounds(s: Sync)
    requires Inv(s)
    ensures EndWork(s) <= 3 * s.numBlocks + 70 && HandWork(s) <= 8 * s.numBlocks + 46
  {
    hide Counted, Phased, Sectioned;
  }

  /** How often the writer begins to move the window. */
  ghost function MoveCount(states: seq<Sync>): nat {
    if |states| <= 1 then 0 else One(Moves(states[0], states[1])) + MoveCount(states[1..])
  }

  /** Whatever the interleaving, a hand-off is over after so many steps, and four more for every time the window is moved. */
  lemma {:induction false} HandsOverInTime(states: seq<Sync>)
    requires Stretch(states) && forall i :: 0 <= i < |states| ==> HandingOff(states[i])
    ensures |states| <= HandWork(states[0]) + 1 + 4 * MoveCount(states)
    decreases |states|
  {
    hide Inv, Step, HandWork, Ending, EndWork;
    if |states| > 1 {
      StretchTail(states);
      HandsOverInTime(states[1..]);
      assert HandingOff(states[0]) && HandingOff(states[1]);
    }
  }
}
