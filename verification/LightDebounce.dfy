/** Moving the door by light: a threshold counts only after several readings in a row, and the
    count has to survive the deep sleep between them in half a byte of the clock's RAM. */
module LightDebounce {
  import opened Eggvault
  import opened Options
  import opened Sequences

  /** What the sensor gives and the threshold at that time, in levels of light. */
  datatype Reading = Reading(lux: nat, nextLux: nat)

  // ---- The byte that survives ----

  function Code(p: Position): (c: nat)
    ensures c < 4
  {
    match p
    case PosUp => 0
    case PosDown => 1
    case PosDriving => 2
    case PosBlocked => 3
  }

  function FromCode(c: nat): Position
    requires c < 4
  {
    if c == 0 then PosUp else if c == 1 then PosDown else if c == 2 then PosDriving else PosBlocked
  }

  /** Four bits for the count, which saturates, and two for each flag. */
  function Pack(counter: nat, ldr: Position, alarm: Position): (ram: nat)
    ensures ram < 256
  {
    (if counter > 15 then 15 else counter) + Code(ldr) * 16 + Code(alarm) * 64
  }

  /** The masks behind the shifts cut nothing off. */
  lemma MaskKeeps(c: nat)
    requires c < 4
    ensures c * 16 % 64 == c * 16 && c * 64 % 256 == c * 64
  {
  }

  function Counter(ram: nat): nat { ram % 16 }

  lemma CounterFits(ram: nat)
    ensures (Counter(ram) + 1) % 256 == Counter(ram) + 1 <= 16
  {
  }

  function Ldr(ram: nat): Position { FromCode(ram / 16 % 4) }

  function Alarm(ram: nat): Position { FromCode(ram / 64 % 4) }

  /** Both flags come back as they were, and so does a count that fits. */
  lemma PackRoundTrip(counter: nat, ldr: Position, alarm: Position)
    ensures var ram := Pack(counter, ldr, alarm);
            && Ldr(ram) == ldr && Alarm(ram) == alarm
            && Counter(ram) == if counter > 15 then 15 else counter
  {
    var c := if counter > 15 then 15 else counter;
    var ram := Pack(counter, ldr, alarm);
    assert ram / 16 == Code(ldr) + Code(alarm) * 4;
    assert ram / 64 == Code(alarm);
  }

  /** Which bits hold what: the lower half is the count, then two bits for each position. */
  lemma PackedBits(counter: nat, ldr: Position, alarm: Position)
    ensures var ram := Pack(counter, ldr, alarm);
            && ram % 16 == (if counter > 15 then 15 else counter)
            && (ram / 16 % 4 == 0 <==> ldr == PosUp) && (ram / 16 % 4 == 1 <==> ldr == PosDown)
            && (ram / 16 % 4 == 2 <==> ldr == PosDriving) && (ram / 16 % 4 == 3 <==> ldr == PosBlocked)
            && (ram / 64 == 0 <==> alarm == PosUp) && (ram / 64 == 1 <==> alarm == PosDown)
            && (ram / 64 == 2 <==> alarm == PosDriving) && (ram / 64 == 3 <==> alarm == PosBlocked)
  {
    PackRoundTrip(counter, ldr, alarm);
  }

  // ---- One wakeup ----

  predicate Qualifies(r: Reading, d: Position) {
    if d == PosDown then r.lux <= r.nextLux else r.lux >= r.nextLux
  }

  datatype Wakeup = Slept(ram: nat) | Moved(goal: Position) | WrongFlag

  /** What a timer wakeup does when the clock holds ram. */
  function Woken(n: nat, ram: nat, r: Reading): Wakeup {
    var d, count := Ldr(ram), Counter(ram) + 1;
    if d != PosDown && d != PosUp then WrongFlag
    else if !Qualifies(r, d) then Slept(Pack(0, d, Alarm(ram)))
    else if count >= n then Moved(d)
    else Slept(Pack(count, d, Alarm(ram)))
  }

  /** The door moves only where its flag points to, and a flag that is no goal is an error. */
  lemma WokenGoal(n: nat, ram: nat, r: Reading)
    ensures Woken(n, ram, r) == WrongFlag <==> Ldr(ram) !in {PosDown, PosUp}
    ensures Woken(n, ram, r).Moved? ==>
      && Woken(n, ram, r).goal == Ldr(ram) && ram % 16 + 1 >= n
      && if Ldr(ram) == PosDown then r.lux <= r.nextLux else r.lux >= r.nextLux
  {
  }

  class Controller {
    const luxDebounceNumber: nat
    var ramCounter: nat
    var ldrFlag: Position
    var alarmFlag: Position
    var initFlag: int
    var rtcRam: nat
    var errorFlag: ErrorCode

    constructor (luxDebounceNumber: nat, initFlag: int, rtcRam: nat)
      requires luxDebounceNumber < 256 && rtcRam < 256
      ensures Valid() && this.luxDebounceNumber == luxDebounceNumber && this.initFlag == initFlag
      ensures this.rtcRam == rtcRam && errorFlag == NoError
    {
      this.luxDebounceNumber, this.initFlag, this.rtcRam := luxDebounceNumber, initFlag, rtcRam;
      ramCounter, ldrFlag, alarmFlag, errorFlag := 0, PosDown, PosDown, NoError;
    }

    ghost predicate Valid()
      reads this
    {
      luxDebounceNumber < 256 && ramCounter < 256 && rtcRam < 256
    }

    /** Compares the light with the threshold. 1 asks for deep sleep. */
    method ActivateLdr(r: Reading) returns (result: int, moved: Option<Position>)
      requires Valid()
      modifies `ramCounter, `errorFlag
      ensures Valid() && (result == 1 <==> ldrFlag in {PosDown, PosUp} && moved == None) && result in {0, 1}
      ensures if ldrFlag !in {PosDown, PosUp} then
                errorFlag == WrongLdrFlag && moved == None && ramCounter == old(ramCounter)
              else
                var count := (old(ramCounter) + 1) % 256;
                var enough := if ldrFlag == PosDown then r.lux <= r.nextLux else r.lux >= r.nextLux;
                && errorFlag == old(errorFlag)
                && moved == (if enough && count >= luxDebounceNumber then Some(ldrFlag) else None)
                && ramCounter == (if enough && count < luxDebounceNumber then count else 0)
    {
      moved := None;
      if ldrFlag == PosDown {
        if r.lux <= r.nextLux {
          ramCounter := (ramCounter + 1) % 256;
          if ramCounter >= luxDebounceNumber {
            ramCounter := 0;
            return 0, Some(PosDown);
          } else {
            return 1, None;
          }
        } else {
          ramCounter := 0;
          return 1, None;
        }
      } else if ldrFlag == PosUp {
        if r.lux >= r.nextLux {
          ramCounter := (ramCounter + 1) % 256;
          if ramCounter >= luxDebounceNumber {
            ramCounter := 0;
            return 0, Some(PosUp);
          } else {
            return 1, None;
          }
        } else {
          ramCounter := 0;
          return 1, None;
        }
      } else {
        errorFlag := WrongLdrFlag;
        return 0, None;
      }
    }

    method WriteValuesToFlash()
      requires Valid()
      modifies `ramCounter, `rtcRam
      ensures Valid() && rtcRam == Pack(old(ramCounter), ldrFlag, alarmFlag)
    {
      if ramCounter > 15 {
        ramCounter := 15;
      }
      MaskKeeps(Code(ldrFlag));
      MaskKeeps(Code(alarmFlag));
      hide Code;
      rtcRam := ramCounter;
      rtcRam := rtcRam + (Code(ldrFlag) * 16) % 64;
      rtcRam := rtcRam + (Code(alarmFlag) * 64) % 256;
    }

    method ReadValuesFromFlash()
      requires Valid()
      modifies `ramCounter, `ldrFlag, `alarmFlag
      ensures Valid()
      ensures if initFlag == 0 then ldrFlag == PosBlocked && alarmFlag == PosBlocked && ramCounter == 0
              else ldrFlag == Ldr(rtcRam) && alarmFlag == Alarm(rtcRam) && ramCounter == Counter(rtcRam)
    {
      if initFlag == 0 {
        ldrFlag, alarmFlag, ramCounter := PosBlocked, PosBlocked, 0;
      } else {
        ramCounter := rtcRam % 16;
        ldrFlag := FromCode(rtcRam / 16 % 4);
        alarmFlag := FromCode(rtcRam / 64 % 4);
      }
    }

    /** A wakeup by the timer: everything in memory but the clock's byte was lost. */
    method TimerWakeup(r: Reading) returns (w: Wakeup)
      requires Valid() && initFlag != 0
      modifies this
      ensures Valid() && initFlag == old(initFlag)
      ensures w == Woken(luxDebounceNumber, old(rtcRam), r)
      ensures rtcRam == if w.Slept? then w.ram else old(rtcRam)
      ensures ldrFlag == Ldr(old(rtcRam)) && alarmFlag == Alarm(old(rtcRam))
      ensures errorFlag == if w.WrongFlag? then WrongLdrFlag else old(errorFlag)
    {
      CounterFits(rtcRam);
      hide Pack, Ldr, Alarm, Counter;
      ReadValuesFromFlash();
      var result, moved := ActivateLdr(r);
      if result == 1 {
        WriteValuesToFlash();
        w := Slept(rtcRam);
      } else {
        w := if moved.Some? then Moved(moved.value) else WrongFlag;
      }
    }
  }

  // ---- A run of wakeups ----

  /** The number of the wakeup that moves the door, from the k-th on, if one does. */
  function FirstMove(n: nat, ram: nat, rs: seq<Reading>, k: nat): Option<nat>
    requires k <= |rs|
    decreases |rs| - k
  {
    if k == |rs| then None
    else
      match Woken(n, ram, rs[k])
      case Moved(_) => Some(k)
      case Slept(ram') => FirstMove(n, ram', rs, k + 1)
      case WrongFlag => None
  }

  /** The n readings up to the k-th all qualify; one is always asked for. */
  predicate RunEnds(rs: seq<Reading>, d: Position, n: nat, k: nat)
    requires k < |rs|
  {
    n <= k + 1 && Qualifies(rs[k], d) && forall i :: k + 1 - n <= i <= k && 0 <= i ==> Qualifies(rs[i], d)
  }

  /** How many readings before the k-th qualify in a row. */
  function Trailing(rs: seq<Reading>, d: Position, k: nat): (t: nat)
    requires k <= |rs|
    ensures t <= k && forall i :: k - t <= i < k ==> Qualifies(rs[i], d)
    ensures t < k ==> !Qualifies(rs[k - t - 1], d)
  {
    if k > 0 && Qualifies(rs[k - 1], d) then Trailing(rs, d, k - 1) + 1 else 0
  }

  lemma RunEndsExactly(rs: seq<Reading>, d: Position, n: nat, k: nat)
    requires k < |rs|
    ensures RunEnds(rs, d, n, k) <==> Qualifies(rs[k], d) && n <= Trailing(rs, d, k + 1)
  {
  }

  predicate IsFirstRun(rs: seq<Reading>, d: Position, n: nat, result: Option<nat>) {
    match result
    case Some(k) => k < |rs| && RunEnds(rs, d, n, k) && forall j :: 0 <= j < k ==> !RunEnds(rs, d, n, j)
    case None => forall j :: 0 <= j < |rs| ==> !RunEnds(rs, d, n, j)
  }

  lemma {:induction false} FirstMoveFrom(n: nat, d: Position, a: Position, rs: seq<Reading>, k: nat)
    requires n <= 16 && d in {PosDown, PosUp} && k <= |rs|
    requires forall j :: 0 <= j < k ==> !RunEnds(rs, d, n, j)
    ensures IsFirstRun(rs, d, n, FirstMove(n, Pack(Trailing(rs, d, k), d, a), rs, k))
    decreases |rs| - k
  {
    if k < |rs| {
      var t := Trailing(rs, d, k);
      if k > 0 {
        RunEndsExactly(rs, d, n, k - 1);
      }
      assert t < n || t == 0;
      PackRoundTrip(t, d, a);
      RunEndsExactly(rs, d, n, k);
      assert Trailing(rs, d, k + 1) == if Qualifies(rs[k], d) then t + 1 else 0;
      if !RunEnds(rs, d, n, k) {
        FirstMoveFrom(n, d, a, rs, k + 1);
      }
    }
  }

  /** Up to 16, the door moves exactly at the end of the first run of that many readings. */
  lemma MovesAtFirstRun(n: nat, d: Position, a: Position, rs: seq<Reading>)
    requires n <= 16 && d in {PosDown, PosUp}
    ensures IsFirstRun(rs, d, n, FirstMove(n, Pack(0, d, a), rs, 0))
  {
    FirstMoveFrom(n, d, a, rs, 0);
  }

  /** n readings up to the k-th are at most as bright as the threshold. */
  predicate DarkRun(rs: seq<Reading>, n: nat, k: nat) {
    n <= k + 1 && k < |rs| && rs[k].lux <= rs[k].nextLux
    && forall i :: 0 <= i <= k && k + 1 - n <= i ==> rs[i].lux <= rs[i].nextLux
  }

  /** n readings up to the k-th are at least as bright as the threshold. */
  predicate BrightRun(rs: seq<Reading>, n: nat, k: nat) {
    n <= k + 1 && k < |rs| && rs[k].lux >= rs[k].nextLux
    && forall i :: 0 <= i <= k && k + 1 - n <= i ==> rs[i].lux >= rs[i].nextLux
  }

  /** In terms of light: the door goes down with the first run of dark readings. */
  lemma DarkCloses(n: nat, a: Position, rs: seq<Reading>, k: nat)
    requires n <= 16
    ensures FirstMove(n, Pack(0, PosDown, a), rs, 0) == Some(k) <==>
            DarkRun(rs, n, k) && forall j :: 0 <= j < k ==> !DarkRun(rs, n, j)
  {
    MovesAtFirstRun(n, PosDown, a, rs);
    hide FirstMove, Pack;
    assert forall j :: 0 <= j < |rs| ==> (RunEnds(rs, PosDown, n, j) <==> DarkRun(rs, n, j));
  }

  /** And it goes up with the first run of bright ones. */
  lemma BrightOpens(n: nat, a: Position, rs: seq<Reading>, k: nat)
    requires n <= 16
    ensures FirstMove(n, Pack(0, PosUp, a), rs, 0) == Some(k) <==>
            BrightRun(rs, n, k) && forall j :: 0 <= j < k ==> !BrightRun(rs, n, j)
  {
    MovesAtFirstRun(n, PosUp, a, rs);
    hide FirstMove, Pack;
    assert forall j :: 0 <= j < |rs| ==> (RunEnds(rs, PosUp, n, j) <==> BrightRun(rs, n, j));
  }

  /** Beyond 16 it never moves, however many readings qualify. */
  lemma {:induction false} NeverMoves(n: nat, ram: nat, rs: seq<Reading>, k: nat)
    requires n > 16 && k <= |rs|
    ensures FirstMove(n, ram, rs, k) == None
    decreases |rs| - k
  {
    if k < |rs| {
      var w := Woken(n, ram, rs[k]);
      if w.Slept? {
        NeverMoves(n, w.ram, rs, k + 1);
      }
    }
  }

  /** So the count can be met at all iff it is at most 16. */
  lemma CountCanBeMet(n: nat, d: Position, a: Position, r: Reading)
    requires d in {PosDown, PosUp} && Qualifies(r, d)
    ensures FirstMove(n, Pack(0, d, a), Fill(n + 1, r), 0).Some? <==> n <= 16
  {
    var rs := Fill(n + 1, r);
    if n <= 16 {
      MovesAtFirstRun(n, d, a, rs);
      assert RunEnds(rs, d, n, n);
    } else {
      NeverMoves(n, Pack(0, d, a), rs, 0);
    }
  }

  /** The flags stay as they are through any number of wakeups that do not move the door. */
  lemma FlagsSurvive(n: nat, ram: nat, r: Reading)
    requires Woken(n, ram, r).Slept?
    ensures var ram' := Woken(n, ram, r).ram;
            Ldr(ram') == Ldr(ram) && Alarm(ram') == Alarm(ram)
  {
    PackRoundTrip(0, Ldr(ram), Alarm(ram));
    PackRoundTrip(Counter(ram) + 1, Ldr(ram), Alarm(ram));
  }
}
