/** Driving the door to a goal: the motor loop as a state machine over arbitrary sensors,
    buttons and clock readings. */
module DoorController {
  import opened Arithmetic
  import opened Eggvault

  const T_ERR_CLOSE: nat := 150   // seconds
  const T_ERR_BLOCK: nat := 30
  const T_DOWN_FINISH: nat := 2
  const MAX_GAP: nat := 0x2000_0000

  datatype Direction = MovingDown | FinishingDown | MovingUp | Standing

  datatype Pin = EndUp | EndLow | SwSelect | SwExit | SwBack | SwFwd

  /** The two lines of the motor, and whether they are on. */
  datatype Lines = Lines(fwd: bool, back: bool)

  const OFF := Lines(false, false)

  datatype Exit = Reached | TimedOut | Interrupted

  /** What the n-th reading finds: a pin's level, or the milliseconds that have passed. */
  datatype World = World(gap: nat -> nat, level: (Pin, nat) -> bool)

  /** What a run has done so far, in true time that does not wrap. Passes are passes of the
      loop, starts counts the settings of moveZero. The finish entries are about the last time
      that the door began to close fully: when, when it was last looked at, and in which pass. */
  datatype Log = Log(entry: nat, passes: nat, starts: nat, moveStart: nat, blockStart: nat,
                     finishStart: nat, finishSeen: nat, finishPass: nat)

  datatype State = State(position: Position, direction: Direction, lines: Lines, now: nat,
                         moveZero: nat, blockZero: nat, downwardsTimer: nat, log: Log)

  /** One pass of the loop: the states before it, after the sensors were looked at, and after
      the timers were checked; the readings where the sensors and the buttons come first. */
  datatype Look = Look(before: State, seen: State, after: State, sensors: nat, error: ErrorCode, buttons: nat)

  /** The difference of two clock readings of 32 bits. */
  function Since(t: nat, zero: nat): nat {
    (t - zero) % TWO32
  }

  lemma SinceIsElapsed(now: nat, start: nat)
    requires start <= now < start + TWO32
    ensures Since(now % TWO32, start % TWO32) == now - start
  {
  }

  // ---- The tables of the state machine ----

  function LinesFor(d: Direction): Lines {
    match d
    case MovingUp => Lines(true, false)
    case MovingDown => Lines(false, true)
    case FinishingDown => Lines(false, true)
    case Standing => OFF
  }

  predicate Toward(goal: Position, d: Direction) {
    if goal == PosDown then d == MovingDown || d == FinishingDown else d == MovingUp
  }

  function Seen(up: bool, low: bool): Position {
    if up then if low then PosUp else PosDriving
    else if low then PosDriving else PosDown
  }

  function NextDirection(goal: Position, d: Direction, up: bool, low: bool): Direction {
    if up && low then MovingDown
    else if !up && !low then
      if d == MovingDown || d == FinishingDown then FinishingDown else MovingUp
    else if d == Standing then
      if goal == PosDown then MovingDown else MovingUp
    else if d == FinishingDown then MovingDown
    else d
  }

  /** Closed tells that the time for closing fully has passed. */
  function NextPosition(p: Position, d: Direction, up: bool, low: bool, closed: bool): Position {
    if up then if low then PosUp else PosDriving
    else if low then PosBlocked
    else if d == MovingDown then p
    else if d == FinishingDown then if closed then PosDown else p
    else PosDown
  }

  predicate Starts(d: Direction, d': Direction) {
    d == Standing || (d == MovingUp && d' == MovingDown)
  }

  /** The clock variables hold the true times, wrapped. */
  predicate Linked(s: State) {
    && (s.direction != Standing ==> s.moveZero == s.log.moveStart % TWO32)
    && (s.position == PosBlocked ==> s.blockZero == s.log.blockStart % TWO32)
    && (s.direction == FinishingDown ==> s.downwardsTimer == s.log.finishStart % TWO32)
  }

  predicate Safe(history: seq<Lines>) {
    forall x <- history :: !(x.fwd && x.back)
  }

  predicate Between(a: nat, x: nat, b: nat) {
    a <= x <= b
  }

  /** What one look at the sensors does to the state s. */
  predicate Reacted(goal: Position, s: State, s': State, up: bool, low: bool, gap: nat) {
    && s'.direction == NextDirection(goal, s.direction, up, low)
    && s'.position == NextPosition(s.position, s.direction, up, low,
                                   s'.log.finishSeen > s.log.finishStart + T_DOWN_FINISH * 1000)
    && s'.lines == LinesFor(s'.direction) && Linked(s')
    && Between(s.now, s'.now, s.now + 2 * gap)
    && s'.log.entry == s.log.entry && s'.log.passes == s.log.passes
    && (if Starts(s.direction, s'.direction)
        then s'.log.starts == s.log.starts + 1 && Between(s.now, s'.log.moveStart, s.now + gap)
             && s'.log.moveStart <= s'.now
        else s'.log.starts == s.log.starts && s'.log.moveStart == s.log.moveStart)
    && (if s'.position == PosBlocked && s.position != PosBlocked
        then Between(s.now, s'.log.blockStart, s'.now)
        else s'.log.blockStart == s.log.blockStart)
    && (s'.direction == FinishingDown ==>
          && s'.log.finishSeen == s'.now
          && if s.direction == MovingDown
             then s'.log.finishStart == s'.now <= s.now + gap && s'.log.finishPass == s.log.passes
             else s'.log.finishStart == s.log.finishStart && s'.log.finishPass == s.log.finishPass)
  }

  // ---- The head of the loop ----

  /** What holds when another pass starts. */
  predicate Heading(goal: Position, s: State, gap: nat) {
    && s.lines == LinesFor(s.direction) && Linked(s)
    && (s.direction == Standing ==>
          s.log.passes == 0 && s.log.starts == 0 && s.now <= s.log.entry + 5 && s.position != PosBlocked)
    && (s.direction != Standing ==>
          s.log.passes >= 1 && s.log.starts == 1 && Toward(goal, s.direction)
          && s.log.moveStart <= s.log.entry + 10 + gap)
    && ((s.direction == MovingUp || s.direction == MovingDown) ==>
          Between(s.log.moveStart + 5 * (s.log.passes - 1), s.now, s.log.moveStart + T_ERR_CLOSE * 1000))
    && (s.direction == FinishingDown ==> Finishing(s.log, s.now, gap))
    && (s.position == PosBlocked ==>
          Between(s.log.blockStart, s.now, s.log.blockStart + T_ERR_BLOCK * 1000 + gap))
  }

  predicate Finishing(log: Log, now: nat, gap: nat) {
    && 2 <= log.finishPass <= log.passes
    && 5 * (log.finishPass - 2) <= T_ERR_CLOSE * 1000
    && log.moveStart + 5 * (log.finishPass - 1) <= log.finishStart
    && Between(log.moveStart, log.finishStart, log.moveStart + T_ERR_CLOSE * 1000 + 5 + gap)
    && Between(log.finishStart + 5 * (log.passes - log.finishPass), log.finishSeen, log.finishStart + T_DOWN_FINISH * 1000)
    && Between(log.finishSeen, now, log.finishSeen + gap)
  }

  /** What holds when the loop is left. */
  predicate Ending(goal: Position, s: State, gap: nat) {
    && (s.log.passes == 0 <==> s.log.starts == 0)
    && (s.log.starts == 2 ==> goal == PosUp) && s.log.starts <= 2
    && s.log.passes <= 30403
    && s.now <= s.log.entry + (T_ERR_CLOSE + T_DOWN_FINISH) * 1000 + 20 + 7 * gap
  }

  /** What the timer checks do to the state s; no error means that no timer has elapsed. */
  predicate Checked(s: State, s': State, e: ErrorCode, gap: nat) {
    && Between(s.now, s'.now, s.now + 2 * gap)
    && s' == s.(now := s'.now, position := if e == NoError then s.position else PosBlocked)
    && match e
       case NoError =>
         && (s.position == PosBlocked ==> s'.now <= s.log.blockStart + 30000 + gap)
         && (s.direction == MovingUp || s.direction == MovingDown ==> s'.now <= s.log.moveStart + 150000)
         && (s.direction == FinishingDown ==> s'.now <= s.now + gap)
       case TimerBlockedElapsed => s.position == PosBlocked && s'.now > s.log.blockStart + 30000
       case TimerOpenElapsed =>
         && s.direction == MovingUp && s'.now > s.log.moveStart + 150000
         && (s.position == PosBlocked ==> s'.now <= s.log.blockStart + 30000 + gap)
       case TimerCloseElapsed =>
         && s.direction == MovingDown && s'.now > s.log.moveStart + 150000
         && (s.position == PosBlocked ==> s'.now <= s.log.blockStart + 30000 + gap)
       case _ => false
  }

  /** The state when the sensors are looked at. */
  function Waited(s: State): State {
    s.(now := s.now + 5, log := s.log.(passes := s.log.passes + 1))
  }

  /** Recent enough for the clock's 32 bits. */
  predicate Recent(s: State, gap: nat) {
    && (s.direction != Standing ==> Between(s.log.moveStart, s.now, s.log.moveStart + 5 * gap + 160000))
    && (s.position == PosBlocked ==> Between(s.log.blockStart, s.now, s.log.blockStart + 5 * gap + 160000))
    && (s.direction == FinishingDown ==> Between(s.log.finishStart, s.now, s.log.finishStart + 5 * gap + 160000))
  }

  lemma HeadingRecent(goal: Position, s: State, gap: nat)
    requires Heading(goal, s, gap)
    ensures Recent(Waited(s), gap) && Linked(Waited(s)) && s.lines == LinesFor(s.direction)
  {
  }

  lemma ReactedRecent(goal: Position, s: State, s2: State, up: bool, low: bool, gap: nat)
    requires Heading(goal, s, gap) && Reacted(goal, Waited(s), s2, up, low, gap)
    ensures Recent(s2, gap) && Linked(s2) && s2.lines == LinesFor(s2.direction) && s2.direction != Standing
  {
  }

  lemma CheckedLines(s: State, s': State, e: ErrorCode, gap: nat)
    requires Checked(s, s', e, gap)
    ensures s'.lines == s.lines && s'.direction == s.direction
  {
  }

  /** A pass that no timer ends leads to the goal or to the head of the loop again. */
  lemma NextHeading(goal: Position, s: State, s2: State, s3: State, up: bool, low: bool, gap: nat)
    requires goal == PosUp || goal == PosDown
    requires Heading(goal, s, gap) && s.position != goal
    requires Reacted(goal, Waited(s), s2, up, low, gap) && Checked(s2, s3, NoError, gap) && s3.position != goal
    ensures Heading(goal, s3, gap)
  {
  }

  lemma PassEnding(goal: Position, s: State, s2: State, s3: State, up: bool, low: bool, e: ErrorCode, gap: nat)
    requires goal == PosUp || goal == PosDown
    requires Heading(goal, s, gap) && s.position != goal
    requires Reacted(goal, Waited(s), s2, up, low, gap) && Checked(s2, s3, e, gap)
    ensures Ending(goal, s3, gap)
  {
  }

  /** As long as the clock is read every 37 seconds, no timer error is reported in a pass that
      sees the goal, and the error names the right direction. */
  lemma NoFalseAlarm(goal: Position, s: State, s2: State, s3: State, up: bool, low: bool, e: ErrorCode, gap: nat)
    requires goal == PosUp || goal == PosDown
    requires Heading(goal, s, gap) && s.position != goal && 4 * gap <= T_ERR_CLOSE * 1000
    requires Reacted(goal, Waited(s), s2, up, low, gap) && Checked(s2, s3, e, gap)
    ensures s2.position == goal ==> e == NoError
    ensures RightError(goal, e)
  {
  }

  /** In the pass that sees the goal the motor is turned away from it, unless the door was
      closing fully: only heads of passes are sure to point towards the goal. */
  lemma TurnedAway(goal: Position, s: State, s2: State, up: bool, low: bool, gap: nat)
    requires goal == PosUp || goal == PosDown
    requires Heading(goal, s, gap) && s.position != goal
    requires Reacted(goal, Waited(s), s2, up, low, gap) && s2.position == goal
    ensures Toward(goal, s2.direction) <==> s.direction == FinishingDown
  {
  }

  predicate RightError(goal: Position, e: ErrorCode) {
    e == NoError || e == TimerBlockedElapsed || e == (if goal == PosUp then TimerOpenElapsed else TimerCloseElapsed)
  }

  /** After each pass of the loop: it is over in time, and it goes on only from a good head. */
  predicate Looping(goal: Position, why: Exit, s: State, gap: nat) {
    Ending(goal, s, gap) && (why == Reached && s.position != goal ==> Heading(goal, s, gap))
  }

  lemma PassLoops(goal: Position, s: State, s2: State, s3: State, up: bool, low: bool, e: ErrorCode, why: Exit, gap: nat)
    requires goal == PosUp || goal == PosDown
    requires Heading(goal, s, gap) && s.position != goal
    requires Reacted(goal, Waited(s), s2, up, low, gap) && Checked(s2, s3, e, gap) && (why == TimedOut <==> e != NoError)
    ensures Looping(goal, why, s3, gap) && s3.log.passes == s.log.passes + 1 && s3.log.entry == s.log.entry
    ensures why == TimedOut ==> s3.position == PosBlocked
  {
    PassEnding(goal, s, s2, s3, up, low, e, gap);
    if why == Reached && s3.position != goal {
      NextHeading(goal, s, s2, s3, up, low, gap);
    }
  }

  // ---- The passes of a run ----

  /** At the head of a later pass the motor runs towards the goal and was started once. */
  predicate Good(goal: Position, s: State) {
    Toward(goal, s.direction) && s.lines == Lines(goal == PosUp, goal == PosDown) && s.log.starts == 1
  }

  lemma HeadFacts(goal: Position, s: State, gap: nat)
    requires Heading(goal, s, gap) && (goal == PosUp || goal == PosDown)
    ensures s.log.passes > 0 ==> Good(goal, s)
    ensures s.log.passes < 30403
  {
  }

  predicate Passed(goal: Position, w: World, gap: nat, l: Look) {
    && l.before.position != goal && l.sensors + 2 <= l.buttons
    && Reacted(goal, Waited(l.before), l.seen, w.level(EndUp, l.sensors), w.level(EndLow, l.sensors + 1), gap)
    && Checked(l.seen, l.after, l.error, gap)
  }

  /** No timer has elapsed and no button is pressed in this pass. */
  predicate Undisturbed(w: World, l: Look) {
    l.error == NoError && !Pressed(w, l.buttons)
  }

  function Last(run: seq<Look>): Look
    requires run != []
  {
    run[|run| - 1]
  }

  /** The loop goes on with the second pass after the first one. */
  predicate Follows(goal: Position, w: World, l: Look, l': Look) {
    Undisturbed(w, l) && l'.before == l.after && Good(goal, l'.before) && l.buttons < l'.sensors
  }

  /** One pass after the other, from the state s on and with the readings from r0 to r1. */
  predicate Passes(goal: Position, w: World, gap: nat, s: State, run: seq<Look>, r0: nat, r1: nat) {
    && r0 <= r1
    && (forall i :: 0 <= i < |run| ==> Passed(goal, w, gap, run[i]) && r0 <= run[i].sensors && run[i].buttons <= r1)
    && (run != [] ==> run[0].before == s)
    && (forall i, j :: 0 <= i < |run| && j == i + 1 < |run| ==> Follows(goal, w, run[i], run[j]))
  }

  lemma PassesOn(goal: Position, w: World, gap: nat, s: State, run: seq<Look>, r0: nat, r1: nat, l: Look, r2: nat)
    requires Passes(goal, w, gap, s, run, r0, r1) && Passed(goal, w, gap, l) && r1 <= l.sensors && l.buttons <= r2 && r1 <= r2
    requires if run == [] then l.before == s
             else Follows(goal, w, Last(run), l)
    ensures Passes(goal, w, gap, s, run + [l], r0, r2)
  {
    hide Passed, Follows;
  }

  /** The state before the first pass: where the door is, as far as the sensors tell. */
  predicate Begun(s: State, w: World, entry: nat, r: nat) {
    && s.log == Log(entry, 0, 0, 0, 0, 0, 0, 0) && s.now == entry + 5
    && s.direction == Standing && s.lines == OFF
    && (s.position == PosUp <==> w.level(EndUp, r) && w.level(EndLow, r + 1))
    && (s.position == PosDown <==> !w.level(EndUp, r) && !w.level(EndLow, r + 1))
    && (s.position == PosDriving <==> w.level(EndUp, r) != w.level(EndLow, r + 1))
  }

  /** The sensors have shown the goal in this pass; the door is down only when it has been
      closing for more than two seconds, unless it stood there. */
  predicate ShowsGoal(goal: Position, w: World, l: Look) {
    if goal == PosUp then w.level(EndUp, l.sensors) && w.level(EndLow, l.sensors + 1)
    else
      && !w.level(EndUp, l.sensors) && !w.level(EndLow, l.sensors + 1)
      && (l.before.direction == Standing
          || (l.before.direction == FinishingDown && l.seen.log.finishSeen > l.seen.log.finishStart + 2000))
  }

  lemma GoalShown(goal: Position, w: World, gap: nat, l: Look)
    requires goal == PosUp || goal == PosDown
    requires Heading(goal, l.before, gap) && Passed(goal, w, gap, l) && l.error == NoError && l.after.position == goal
    ensures ShowsGoal(goal, w, l)
  {
  }

  /** The time that the error names is over. */
  predicate Elapsed(e: ErrorCode, s: State) {
    match e
    case TimerBlockedElapsed => s.now > s.log.blockStart + 30000
    case TimerOpenElapsed => s.direction == MovingUp && s.now > s.log.moveStart + 150000
    case TimerCloseElapsed => s.direction == MovingDown && s.now > s.log.moveStart + 150000
    case _ => false
  }

  /** How a run has ended, or that it has not, by its last pass. */
  predicate Outcome(goal: Position, why: Exit, p: Position, w: World, gap: nat, run: seq<Look>) {
    match why
    case Reached => run != [] ==> Undisturbed(w, Last(run)) && (p == goal ==> ShowsGoal(goal, w, Last(run)))
    case Interrupted => run != [] && Last(run).error == NoError && Pressed(w, Last(run).buttons)
    case TimedOut =>
      && run != [] && p == PosBlocked && Elapsed(Last(run).error, Last(run).after)
      && (4 * gap <= T_ERR_CLOSE * 1000 ==> RightError(goal, Last(run).error))
  }

  lemma PassOutcome(goal: Position, w: World, gap: nat, run: seq<Look>, l: Look, why: Exit)
    requires goal == PosUp || goal == PosDown
    requires Heading(goal, l.before, gap) && Passed(goal, w, gap, l) && (why == TimedOut <==> l.error != NoError)
    requires l.error == NoError ==> (why == Interrupted <==> Pressed(w, l.buttons))
    ensures Outcome(goal, why, l.after.position, w, gap, run + [l])
  {
    assert Last(run + [l]) == l;
    if why == Reached && l.after.position == goal {
      GoalShown(goal, w, gap, l);
    }
    if 4 * gap <= T_ERR_CLOSE * 1000 {
      NoFalseAlarm(goal, l.before, l.seen, l.after, w.level(EndUp, l.sensors), w.level(EndLow, l.sensors + 1), l.error, gap);
    }
  }

  lemma IsPass(goal: Position, w: World, gap: nat, l: Look)
    requires l.before.position != goal && l.sensors + 2 <= l.buttons
    requires Reacted(goal, Waited(l.before), l.seen, w.level(EndUp, l.sensors), w.level(EndLow, l.sensors + 1), gap)
    requires Checked(l.seen, l.after, l.error, gap)
    ensures Passed(goal, w, gap, l)
  {
  }

  /** A pass after the run so far. */
  lemma RunOn(goal: Position, w: World, gap: nat, s0: State, run: seq<Look>, r0: nat, l: Look, why: Exit, r2: nat)
    requires (goal == PosUp || goal == PosDown) && Heading(goal, l.before, gap) && Passed(goal, w, gap, l)
    requires Passes(goal, w, gap, s0, run, r0, l.sensors) && Outcome(goal, Reached, l.before.position, w, gap, run)
    requires if run == [] then l.before == s0
             else l.before == Last(run).after && (Last(run).error == NoError ==> Last(run).buttons < l.sensors)
    requires l.before.log.passes == |run| && l.buttons <= r2 && (why == TimedOut <==> l.error != NoError)
    requires l.error == NoError ==> (why == Interrupted <==> Pressed(w, l.buttons))
    ensures Passes(goal, w, gap, s0, run + [l], r0, r2) && Outcome(goal, why, l.after.position, w, gap, run + [l])
    ensures Looping(goal, why, l.after, gap) && Last(run + [l]) == l
    ensures l.after.log.passes == |run| + 1 && l.after.log.entry == l.before.log.entry
  {
    hide Heading, Reacted, Good, Looping, Passes, Checked, Pressed, ShowsGoal, Elapsed, RightError;
    HeadFacts(goal, l.before, gap);
    PassLoops(goal, l.before, l.seen, l.after, w.level(EndUp, l.sensors), w.level(EndLow, l.sensors + 1), l.error, why, gap);
    PassesOn(goal, w, gap, s0, run, r0, l.sensors, l, r2);
    PassOutcome(goal, w, gap, run, l, why);
  }

  // ---- The controller ----

  predicate IsTimer(e: ErrorCode) {
    e == TimerBlockedElapsed || e == TimerOpenElapsed || e == TimerCloseElapsed
  }

  /** Whether one of the buttons is pressed, read one after the other from the r-th reading on. */
  predicate Pressed(w: World, r: nat) {
    w.level(SwSelect, r) || w.level(SwExit, r + 1) || w.level(SwBack, r + 2) || w.level(SwFwd, r + 3)
  }

  class Door {
    const world: World
    const gap: nat   // the longest time from one clock reading to the next, but for delays
    var now: nat
    var readings: nat
    var doorPosition: Position
    var doorDirection: Direction
    var lines: Lines
    var led: bool
    var errorFlag: ErrorCode
    var moveZero: nat
    var blockZero: nat
    var downwardsTimer: nat
    ghost var log: Log
    ghost var history: seq<Lines>   // the lines after each write

    constructor (world: World, gap: nat)
      requires gap <= MAX_GAP && forall n :: world.gap(n) <= gap
      ensures Valid() && lines == OFF && history == [] && errorFlag == NoError && !led
    {
      this.world, this.gap, now, readings := world, gap, 0, 0;
      doorPosition, doorDirection, lines, led, errorFlag := PosDriving, Standing, OFF, false, NoError;
      moveZero, blockZero, downwardsTimer := 0, 0, 0;
      log, history := Log(0, 0, 0, 0, 0, 0, 0, 0), [];
    }

    ghost predicate Valid() {
      gap <= MAX_GAP && forall n :: world.gap(n) <= gap
    }

    ghost function View(): State
      reads this
    {
      State(doorPosition, doorDirection, lines, now, moveZero, blockZero, downwardsTimer, log)
    }

    method Millis() returns (t: nat)
      requires Valid()
      modifies `now, `readings
      ensures Between(old(now), now, old(now) + gap) && t == now % TWO32 && readings == old(readings) + 1
    {
      now := now + world.gap(readings);
      readings := readings + 1;
      t := now % TWO32;
    }

    method Delay(ms: nat)
      modifies `now
      ensures now == old(now) + ms
    {
      now := now + ms;
    }

    method DigitalRead(pin: Pin) returns (high: bool)
      modifies `readings
      ensures high == world.level(pin, old(readings)) && readings == old(readings) + 1
    {
      high := world.level(pin, readings);
      readings := readings + 1;
    }

    method WriteFwd(high: bool)
      modifies `lines, `history
      ensures lines == old(lines).(fwd := high) && history == old(history) + [lines]
    {
      lines := lines.(fwd := high);
      history := history + [lines];
    }

    method WriteBack(high: bool)
      modifies `lines, `history
      ensures lines == old(lines).(back := high) && history == old(history) + [lines]
    {
      lines := lines.(back := high);
      history := history + [lines];
    }

    /** Forward on, then backward off: safe only while backward is off. */
    method DriveUp()
      requires Safe(history) && !lines.back
      modifies `lines, `history
      ensures Safe(history) && lines == Lines(true, false) == LinesFor(MovingUp)
    {
      WriteFwd(true);
      WriteBack(false);
    }

    /** Forward off, then backward on: always safe. */
    method DriveDown()
      requires Safe(history) && !(lines.fwd && lines.back)
      modifies `lines, `history
      ensures Safe(history) && lines == Lines(false, true) == LinesFor(MovingDown)
    {
      WriteFwd(false);
      WriteBack(true);
    }

    /** Starts the motor towards the goal. */
    method Start(goal: Position)
      requires Valid() && Safe(history) && lines == OFF
      modifies this
      ensures Safe(history) && readings >= old(readings)
      ensures Between(old(now), now, old(now) + gap) && moveZero == now % TWO32
      ensures doorDirection == (if goal == PosDown then MovingDown else MovingUp) && lines == LinesFor(doorDirection)
      ensures log == old(log).(starts := old(log).starts + 1, moveStart := now)
      ensures doorPosition == old(doorPosition) && blockZero == old(blockZero)
              && downwardsTimer == old(downwardsTimer) && led == old(led) && errorFlag == old(errorFlag)
    {
      if goal == PosDown {
        moveZero := Millis();
        doorDirection := MovingDown;
        DriveDown();
      } else {
        moveZero := Millis();
        doorDirection := MovingUp;
        DriveUp();
      }
      log := log.(starts := log.starts + 1, moveStart := now);
    }

    /** Both sensors low: the door is down, or has just got there. */
    method AtBottom(goal: Position)
      requires Valid() && Safe(history) && lines == LinesFor(doorDirection) && Linked(View()) && Recent(View(), gap)
      modifies this
      ensures Safe(history) && led == old(led) && errorFlag == old(errorFlag) && readings >= old(readings)
      ensures doorDirection == (if old(doorDirection) == MovingDown || old(doorDirection) == FinishingDown then FinishingDown else MovingUp)
      ensures lines == Lines(doorDirection == MovingUp, doorDirection == FinishingDown)
      ensures doorPosition == PosDown || doorPosition == old(doorPosition)
      ensures old(doorDirection) == FinishingDown && old(doorPosition) != PosDown ==>
        (doorPosition == PosDown <==> log.finishSeen > old(log).finishStart + 2000)
      ensures old(doorDirection) == MovingDown ==> doorPosition == old(doorPosition)
      ensures old(doorDirection) == Standing || old(doorDirection) == MovingUp ==> doorPosition == PosDown
      ensures Reacted(goal, old(View()), View(), false, false, gap)
    {
      if doorDirection == MovingDown {
        downwardsTimer := Millis();
        doorDirection := FinishingDown;
        log := log.(finishStart := now, finishSeen := now, finishPass := log.passes);
      } else if doorDirection == FinishingDown {
        var t := Millis();
        SinceIsElapsed(now, log.finishStart);
        log := log.(finishSeen := now);
        if Since(t, downwardsTimer) > T_DOWN_FINISH * 1000 {
          doorPosition := PosDown;
        }
      } else {
        doorPosition := PosDown;
        if doorDirection != MovingUp {
          doorDirection := MovingUp;
          moveZero := Millis();
          log := log.(starts := log.starts + 1, moveStart := now);
        }
        DriveUp();
      }
    }

    /** Only the lower sensor high: the door is stuck; the motor goes on. */
    method Stuck(goal: Position)
      requires Valid() && Safe(history) && lines == LinesFor(doorDirection) && Linked(View()) && Recent(View(), gap)
      modifies this
      ensures Safe(history) && led == old(led) && errorFlag == old(errorFlag) && readings >= old(readings)
      ensures doorPosition == PosBlocked
      ensures doorDirection == (if old(doorDirection) == Standing then if goal == PosDown then MovingDown else MovingUp
                                else if old(doorDirection) == MovingUp then MovingUp else MovingDown)
      ensures lines == Lines(doorDirection == MovingUp, doorDirection == MovingDown)
      ensures Reacted(goal, old(View()), View(), false, true, gap)
    {
      if doorDirection == Standing {
        Start(goal);
      }
      if doorPosition != PosBlocked {
        doorPosition := PosBlocked;
        blockZero := Millis();
        log := log.(blockStart := now);
      }
      if doorDirection == FinishingDown {
        doorDirection := MovingDown;
      }
    }

    /** Both sensors high: the door is up. */
    method AtTop(goal: Position)
      requires Valid() && Safe(history) && lines == LinesFor(doorDirection) && Linked(View()) && Recent(View(), gap)
      modifies this
      ensures Safe(history) && led == old(led) && errorFlag == old(errorFlag) && readings >= old(readings)
      ensures doorPosition == PosUp && doorDirection == MovingDown && lines == Lines(false, true)
      ensures Reacted(goal, old(View()), View(), true, true, gap)
    {
      doorPosition := PosUp;
      if doorDirection != MovingDown && doorDirection != FinishingDown {
        doorDirection := MovingDown;
        moveZero := Millis();
        log := log.(starts := log.starts + 1, moveStart := now);
      }
      if doorDirection == FinishingDown {
        doorDirection := MovingDown;
      }
      DriveDown();
    }

    /** Only the upper sensor high: the door is on its way. */
    method OnTheWay(goal: Position)
      requires Valid() && Safe(history) && lines == LinesFor(doorDirection) && Linked(View()) && Recent(View(), gap)
      modifies this
      ensures Safe(history) && led == old(led) && errorFlag == old(errorFlag) && readings >= old(readings)
      ensures doorPosition == PosDriving
      ensures doorDirection == (if old(doorDirection) == Standing then if goal == PosDown then MovingDown else MovingUp
                                else if old(doorDirection) == MovingUp then MovingUp else MovingDown)
      ensures lines == Lines(doorDirection == MovingUp, doorDirection == MovingDown)
      ensures Reacted(goal, old(View()), View(), true, false, gap)
    {
      doorPosition := PosDriving;
      if doorDirection == MovingDown || doorDirection == FinishingDown {
        doorDirection := MovingDown;
      }
      if doorDirection == Standing {
        Start(goal);
      }
    }

    method React(goal: Position, up: bool, low: bool)
      requires Valid() && Safe(history) && lines == LinesFor(doorDirection) && Linked(View()) && Recent(View(), gap)
      modifies this
      ensures Safe(history) && led == old(led) && errorFlag == old(errorFlag) && readings >= old(readings)
      ensures Reacted(goal, old(View()), View(), up, low, gap)
    {
      hide Reacted, Linked, Recent, Safe, Valid;
      if !up && !low {
        AtBottom(goal);
      } else if !up && low {
        Stuck(goal);
      } else if up && low {
        AtTop(goal);
      } else {
        OnTheWay(goal);
      }
    }

    /** Whether a timer has elapsed, which is shown and remembered. */
    method CheckTimers() returns (e: ErrorCode)
      requires Valid() && Linked(View()) && Recent(View(), gap) && doorDirection != Standing
      modifies this
      ensures Checked(old(View()), View(), e, gap)
      ensures history == old(history) && readings >= old(readings)
      ensures if e == NoError then led == old(led) && errorFlag == old(errorFlag) else led && errorFlag == e
    {
      if doorPosition == PosBlocked {
        var t := Millis();
        SinceIsElapsed(now, log.blockStart);
        if Since(t, blockZero) > T_ERR_BLOCK * 1000 {
          led, errorFlag := true, TimerBlockedElapsed;
          return TimerBlockedElapsed;
        }
      }
      if doorDirection == MovingDown {
        var t := Millis();
        SinceIsElapsed(now, log.moveStart);
        if Since(t, moveZero) > T_ERR_CLOSE * 1000 {
          led, doorPosition, errorFlag := true, PosBlocked, TimerCloseElapsed;
          return TimerCloseElapsed;
        }
      }
      if doorDirection == MovingUp {
        var t := Millis();
        SinceIsElapsed(now, log.moveStart);
        if Since(t, moveZero) > T_ERR_CLOSE * 1000 {
          led, doorPosition, errorFlag := true, PosBlocked, TimerOpenElapsed;
          return TimerOpenElapsed;
        }
      }
      return NoError;
    }

    /** Up to the first button that is pressed. */
    method CheckButtons() returns (pressed: bool)
      modifies `readings
      ensures pressed <==> Pressed(world, old(readings))
      ensures var r := old(readings);
              pressed <==> world.level(SwSelect, r) || world.level(SwExit, r + 1) || world.level(SwBack, r + 2) || world.level(SwFwd, r + 3)
      ensures old(readings) < readings <= old(readings) + 4
    {
      pressed := DigitalRead(SwSelect);
      if !pressed {
        pressed := DigitalRead(SwExit);
      }
      if !pressed {
        pressed := DigitalRead(SwBack);
      }
      if !pressed {
        pressed := DigitalRead(SwFwd);
      }
    }

    /** One pass of the loop: waits, looks at the sensors, the timers and the buttons. The
        state in between is s, and r the first reading of the buttons. */
    method Pass(goal: Position) returns (why: Exit, ghost s: State, ghost e: ErrorCode, ghost r: nat)
      requires Valid() && Safe(history) && (goal == PosUp || goal == PosDown)
      requires Heading(goal, View(), gap) && doorPosition != goal
      modifies this
      ensures Safe(history) && lines == LinesFor(doorDirection)
      ensures Reacted(goal, Waited(old(View())), s, world.level(EndUp, old(readings)),
                      world.level(EndLow, old(readings) + 1), gap)
      ensures Checked(s, View(), e, gap) && (why == TimedOut <==> e != NoError)
      ensures e == NoError ==> (why == Interrupted <==> Pressed(world, r)) && r < readings
      ensures old(readings) + 2 <= r <= readings
      ensures if e == NoError then led == old(led) && errorFlag == old(errorFlag) else led && errorFlag == e
    {
      hide Heading, Recent, Linked, Safe, Valid, Reacted, Checked, LinesFor, Pressed;
      HeadingRecent(goal, View(), gap);
      ghost var start := View();
      Delay(5);
      log := log.(passes := log.passes + 1);
      assert View() == Waited(start);
      var up := DigitalRead(EndUp);
      var low := DigitalRead(EndLow);
      React(goal, up, low);
      s := View();
      ReactedRecent(goal, start, s, up, low, gap);
      var error := CheckTimers();
      CheckedLines(s, View(), error, gap);
      e, r := error, readings;
      if error != NoError {
        return TimedOut, s, e, r;
      }
      var pressed := CheckButtons();
      why := if pressed then Interrupted else Reached;
    }

    /** A pass, and what it adds to the run. */
    method PassOn(goal: Position, ghost s0: State, ghost run: seq<Look>, ghost r0: nat) returns (why: Exit, ghost run': seq<Look>)
      requires Valid() && Safe(history) && (goal == PosUp || goal == PosDown)
      requires Heading(goal, View(), gap) && doorPosition != goal && log.passes == |run|
      requires Ran(goal, s0, run, r0) && Outcome(goal, Reached, doorPosition, world, gap, run)
      modifies this
      ensures Safe(history) && Looping(goal, why, View(), gap)
      ensures log.passes == |run'| == |run| + 1 && log.entry == old(log).entry
      ensures Ran(goal, s0, run', r0) && Outcome(goal, why, doorPosition, world, gap, run')
      ensures if why == TimedOut then led && errorFlag == Last(run').error else led == old(led) && errorFlag == old(errorFlag)
    {
      hide *;
      ghost var start, r := View(), readings;
      ghost var s, e, b;
      SoFar(goal, s0, run, r0);
      why, s, e, b := Pass(goal);
      ghost var l := Look(start, s, View(), r, e, b);
      IsPass(goal, world, gap, l);
      RunOn(goal, world, gap, s0, run, r0, l, why, readings);
      run' := run + [l];
      RunsNow(goal, s0, run', l, r0);
    }

    lemma SoFar(goal: Position, s0: State, run: seq<Look>, r0: nat)
      requires Ran(goal, s0, run, r0)
      ensures Passes(goal, world, gap, s0, run, r0, readings)
      ensures if run == [] then View() == s0
              else View() == Last(run).after && (Last(run).error == NoError ==> Last(run).buttons < readings)
      ensures View().position == doorPosition && View().log == log
    {
    }

    lemma RunsNow(goal: Position, s0: State, run: seq<Look>, l: Look, r0: nat)
      requires Passes(goal, world, gap, s0, run, r0, readings) && run != [] && Last(run) == l
      requires View() == l.after && (l.error == NoError ==> l.buttons < readings)
      ensures Ran(goal, s0, run, r0) && View().position == doorPosition && View().log == log
    {
    }

    /** The run so far has led to the present state. */
    ghost predicate Ran(goal: Position, s0: State, run: seq<Look>, r0: nat)
      reads this
    {
      && Passes(goal, world, gap, s0, run, r0, readings)
      && if run == [] then View() == s0
         else View() == Last(run).after && (Last(run).error == NoError ==> Last(run).buttons < readings)
    }

    /** Before the first pass: where the door is, as far as the sensors tell. */
    method Begin(goal: Position)
      requires Valid() && lines == OFF && (goal == PosUp || goal == PosDown)
      modifies this
      ensures Looping(goal, Reached, View(), gap) && readings == old(readings) + 2
      ensures Begun(View(), world, old(now), old(readings))
      ensures var up, low := world.level(EndUp, old(readings)), world.level(EndLow, old(readings) + 1);
              doorPosition == if up && low then PosUp else if !up && !low then PosDown else PosDriving
      ensures history == old(history) && led == old(led) && errorFlag == old(errorFlag)
    {
      log := Log(now, 0, 0, 0, 0, 0, 0, 0);
      Delay(5);
      var up := DigitalRead(EndUp);
      var low := DigitalRead(EndLow);
      doorDirection := Standing;
      doorPosition := Seen(up, low);
    }

    method SwitchOff()
      requires Safe(history)
      modifies `lines, `history, `doorDirection, `errorFlag
      ensures Safe(history) && lines == OFF && doorDirection == Standing
      ensures errorFlag ==
        if doorPosition != PosBlocked && old(errorFlag) in {TimerBlockedElapsed, TimerOpenElapsed, TimerCloseElapsed} then NoError
        else old(errorFlag)
    {
      if doorPosition != PosBlocked && IsTimer(errorFlag) {
        errorFlag := NoError;
      }
      WriteFwd(false);
      WriteBack(false);
      doorDirection := Standing;
    }

    /** Drives the door until it is where it should be, a timer elapses or a button is
        pressed. The motor is off afterwards, and never were both lines on. The run tells
        what each pass of the loop has found and done. */
    method MoveMotor(goal: Position) returns (why: Exit, ghost s0: State, ghost run: seq<Look>)
      requires Valid() && Safe(history) && lines == OFF && (goal == PosUp || goal == PosDown)
      modifies this
      ensures Safe(history) && lines == OFF && doorDirection == Standing
      ensures Begun(s0, world, old(now), old(readings))
      ensures var up, low := world.level(EndUp, old(readings)), world.level(EndLow, old(readings) + 1);
              run == [] <==> if goal == PosUp then up && low else !up && !low
      ensures Passes(goal, world, gap, s0, run, old(readings) + 2, readings)
      ensures var s := if run == [] then s0 else Last(run).after;
              log == s.log && now == s.now && doorPosition == s.position && |run| == s.log.passes && Ending(goal, s, gap)
      ensures Outcome(goal, why, doorPosition, world, gap, run)
      ensures why == Reached ==> doorPosition == goal
      ensures errorFlag == if why == TimedOut then Last(run).error
                           else if doorPosition != PosBlocked && old(errorFlag) in {TimerBlockedElapsed, TimerOpenElapsed, TimerCloseElapsed}
                           then NoError else old(errorFlag)
      ensures led == (old(led) || why == TimedOut)
    {
      hide Ending, Heading, Safe, Valid, Good, Outcome, Passes, Begun, Elapsed, ShowsGoal, Pressed;
      Begin(goal);
      s0, run, why := View(), [], Reached;
      ghost var r0 := readings;
      StartsRun(goal, s0, r0);
      while doorPosition != goal && why == Reached
        invariant Safe(history) && Looping(goal, why, View(), gap) && log.entry == old(now) && log.passes == |run|
        invariant Ran(goal, s0, run, r0) && Outcome(goal, why, doorPosition, world, gap, run)
        invariant if run == [] then why == Reached else s0.position != goal
        invariant if why == TimedOut then run != [] && led && errorFlag == Last(run).error
                  else led == old(led) && errorFlag == old(errorFlag)
        decreases why == Reached, 30403 - log.passes
      {
        HeadFacts(goal, View(), gap);
        why, run := PassOn(goal, s0, run, r0);
      }
      EndsBlocked(goal, why, doorPosition, run);
      SwitchOff();
    }

    lemma EndsBlocked(goal: Position, why: Exit, p: Position, run: seq<Look>)
      requires Outcome(goal, why, p, world, gap, run)
      ensures why == TimedOut ==> p == PosBlocked
    {
    }

    lemma StartsRun(goal: Position, s0: State, r0: nat)
      requires View() == s0 && readings == r0
      ensures Ran(goal, s0, [], r0) && Outcome(goal, Reached, doorPosition, world, gap, [])
    {
    }
  }
}
