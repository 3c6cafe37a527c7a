/** The firmware's global arrays and the code that updates them in place: the standby interrupt,
    calibration with its bubble sort, and the visit of one pad. Each piece is proved against the
    steps of the state machine. */
module Firmware {
  import opened Bytes
  import opened PadNumbers
  import opened PadRounds
  import opened PadScan
  import opened PadVisits
  import opened Sorting

  const DAC_CODES := 64

  function PadsOf(init: seq<int>, initSe: seq<int>, filtered: seq<int>, sticky: seq<nat>,
                  anti: seq<bool>, hyst: seq<bool>, sent: seq<bool>, played: seq<bool>): seq<Pad>
    requires |init| == |initSe| == |filtered| == |sticky| == |anti| == |hyst| == |sent| == PADS <= |played|
  {
    seq(PADS, p requires 0 <= p < PADS =>
      Pad(init[p], initSe[p], filtered[p], sticky[p], anti[p], hyst[p], sent[p], played[p]))
  }

  // ----- what a calibration finds -----

  /** The first DAC code from i on that brings the reading of a pad above -400. */
  function FirstCode(diff: (nat, nat) -> int, pad: nat, i: nat): Option<nat>
    requires i <= DAC_CODES
    decreases DAC_CODES - i
  {
    if i == DAC_CODES then None
    else if diff(pad, i) > -400 then Some(i)
    else FirstCode(diff, pad, i + 1)
  }

  function CodeOf(diff: (nat, nat) -> int, pad: nat): nat {
    match FirstCode(diff, pad, 0)
    case Some(i) => i
    case None => 0
  }

  function CalibratedInit(diff: (nat, nat) -> int, pad: nat, before: int): int {
    match FirstCode(diff, pad, 0)
    case Some(i) => diff(pad, i) + Threshold(pad)
    case None => before
  }

  lemma {:induction false} FirstCodeIsFirst(diff: (nat, nat) -> int, pad: nat, i: nat)
    requires i <= DAC_CODES
    ensures match FirstCode(diff, pad, i)
      case Some(c) => i <= c < DAC_CODES && diff(pad, c) > -400 && forall j | i <= j < c :: diff(pad, j) <= -400
      case None => forall j | i <= j < DAC_CODES :: diff(pad, j) <= -400
    decreases DAC_CODES - i
  {
    if i < DAC_CODES && diff(pad, i) <= -400 {
      FirstCodeIsFirst(diff, pad, i + 1);
    }
  }

  /** The code of a pad is the first that brings its reading above -400, and the threshold that reading
      and 120 or 105 more; without such a code it is zero, and the threshold stays. */
  lemma CodeFound(diff: (nat, nat) -> int, pad: nat, before: int)
    ensures var c := CodeOf(diff, pad);
      if exists j :: 0 <= j < 64 && diff(pad, j) > -400 then
        && c < 64 && diff(pad, c) > -400 && (forall j | 0 <= j < c :: diff(pad, j) <= -400)
        && CalibratedInit(diff, pad, before) == diff(pad, c) + (if pad < 8 then 120 else 105)
      else c == 0 && CalibratedInit(diff, pad, before) == before
  {
    FirstCodeIsFirst(diff, pad, 0);
  }

  function CalibrationOf(diff: (nat, nat) -> int, se: nat -> int, order: seq<nat>): Calibration {
    Calibration(
      seq(40, p requires 0 <= p < 40 =>
        match FirstCode(diff, p, 0)
        case Some(i) => Some(diff(p, i))
        case None => None),
      seq(8, k requires 0 <= k < 8 => se(40 + k)), order)
  }

  /** The order a scan goes by: each of the 48 pads once, the pads below 40 by DAC code and pad
      number, each with its own code, the others in their places. */
  ghost predicate ScanReady(diff: (nat, nat) -> int, codes: seq<nat>, order: seq<nat>) {
    && |codes| == |order| == PADS
    && (forall i | 0 <= i < 40 :: order[i] < 40 && codes[i] == CodeOf(diff, order[i]))
    && (forall i, j | 0 <= i < j < 40 :: codes[i] < codes[j] || (codes[i] == codes[j] && order[i] < order[j]))
    && (forall i | 40 <= i < PADS :: order[i] == i)
    && (forall p | 0 <= p < PADS :: p in order)
    && IsScanOrder(order)
  }

  /** So a scan without a calibration in between comes by every pad exactly once. */
  lemma EachPadOnce(diff: (nat, nat) -> int, codes: seq<nat>, order: seq<nat>, p: nat)
    requires ScanReady(diff, codes, order) && p < PADS
    ensures exists i :: 0 <= i < PADS && order[i] == p && forall j | 0 <= j < PADS && order[j] == p :: j == i
  {
    assert p in order;
    var i :| 0 <= i < PADS && order[i] == p;
    forall j | 0 <= j < PADS && order[j] == p ensures j == i {
      assert IsScanOrder(order);
    }
  }

  lemma OrderIrrelevant(pads: seq<Pad>, diff: (nat, nat) -> int, se: nat -> int, order: seq<nat>)
    requires |pads| == PADS && IsScanOrder(order)
    ensures forall other: seq<nat> | IsScanOrder(other) ::
      CalibratedPads(pads, CalibrationOf(diff, se, other)) == CalibratedPads(pads, CalibrationOf(diff, se, order))
  {
  }

  lemma ScanReadyAfterSort(diff: (nat, nat) -> int, before: seq<nat>, code: seq<nat>, codes: seq<nat>, order: seq<nat>)
    requires |before| == |codes| == |order| == PADS && |code| == 40
    requires forall p | 0 <= p < 40 :: code[p] == CodeOf(diff, p)
    requires forall p | 0 <= p < PADS :: before[p] == p
    requires Sorted(codes, order, 40) && Belongs(code, codes, order, 40)
    requires multiset(order) == multiset(before) && order[40..] == before[40..]
    ensures ScanReady(diff, codes, order)
  {
    forall p | 0 <= p < PADS ensures p in order {
      assert before[p] in multiset(before);
      assert p in multiset(order);
    }
    forall i | 40 <= i < PADS ensures order[i] == i {
      assert order[i] == order[40..][i - 40] == before[40..][i - 40];
    }
  }

  class Scanner {
    const initVal: array<int>
    const initValSe: array<int>
    const filteredVal: array<int>
    const stickyCount: array<nat>
    const antiStickyApplied: array<bool>
    const hysterisisApplied: array<bool>
    const velocitySent: array<bool>
    const beingPlayed: array<bool>
    const r2rVal: array<nat>
    const padOrder: array<nat>
    var thresholdsRaised: bool
    var count: nat
    var ledSum: nat
    var index: nat
    /** The code last written to the DAC. */
    var dac: nat
    ghost var at: Point

    ghost predicate Valid()
      reads this
    {
      && initVal.Length == initValSe.Length == filteredVal.Length == stickyCount.Length == PADS
      && antiStickyApplied.Length == hysterisisApplied.Length == velocitySent.Length == PADS
      && beingPlayed.Length == PADS + CONTROLS && r2rVal.Length == padOrder.Length == PADS
      && initVal != initValSe && initVal != filteredVal && initValSe != filteredVal
      && stickyCount != r2rVal && stickyCount != padOrder && r2rVal != padOrder
      && initVal as object != stickyCount && initVal as object != r2rVal && initVal as object != padOrder
      && initValSe as object != stickyCount && initValSe as object != r2rVal && initValSe as object != padOrder
      && filteredVal as object != stickyCount && filteredVal as object != r2rVal && filteredVal as object != padOrder
      && antiStickyApplied != hysterisisApplied && antiStickyApplied != velocitySent && antiStickyApplied != beingPlayed
      && hysterisisApplied != velocitySent && hysterisisApplied != beingPlayed && velocitySent != beingPlayed
    }

    ghost function View(): (s: State)
      requires Valid()
      reads this, initVal, initValSe, filteredVal, stickyCount, antiStickyApplied, hysterisisApplied, velocitySent,
            beingPlayed, padOrder
    {
      State(PadsOf(initVal[..], initValSe[..], filteredVal[..], stickyCount[..], antiStickyApplied[..],
                   hysterisisApplied[..], velocitySent[..], beingPlayed[..]),
            beingPlayed[PADS..], padOrder[..], thresholdsRaised, count, ledSum, index, at)
    }

    /** The start of main: everything cleared, then calibrated. The delays in the calibration let the
        timer interrupt in, which counts idle ticks. */
    constructor (diff: (nat, nat) -> int, se: nat -> int, ticks: nat)
      requires ticks <= STANDBY_TICKS
      ensures Valid() && Initial(View()) && count == ticks && ScanReady(diff, r2rVal[..], padOrder[..])
      ensures forall p | 40 <= p < PADS :: View().pads[p].init == 0
      ensures InConverterRange(diff, se) ==> forall p | 0 <= p < PADS :: InRange(View(), p)
      ensures fresh(initVal) && fresh(initValSe) && fresh(filteredVal) && fresh(stickyCount) && fresh(r2rVal)
      ensures fresh(padOrder) && fresh(antiStickyApplied) && fresh(hysterisisApplied) && fresh(velocitySent)
      ensures fresh(beingPlayed)
    {
      initVal := new int[PADS](_ => 0);
      initValSe := new int[PADS](_ => 0);
      filteredVal := new int[PADS](_ => 0);
      stickyCount := new nat[PADS](_ => 0);
      antiStickyApplied := new bool[PADS](_ => false);
      hysterisisApplied := new bool[PADS](_ => false);
      velocitySent := new bool[PADS](_ => false);
      beingPlayed := new bool[PADS + CONTROLS](_ => false);
      r2rVal := new nat[PADS](_ => 0);
      padOrder := new nat[PADS](_ => 0);
      thresholdsRaised, count, ledSum, index, dac, at := false, ticks, 0, 0, 0, Between;
      new;
      StartUp(diff, se);
    }

    /** Everything is still as the memory was cleared. */
    ghost predicate Cleared()
      requires Valid()
      reads this, initVal, initValSe, filteredVal, stickyCount, antiStickyApplied, hysterisisApplied, velocitySent,
            beingPlayed, r2rVal, padOrder
    {
      && (forall p | 0 <= p < PADS :: initVal[p] == 0 && stickyCount[p] == 0)
      && !thresholdsRaised && count <= STANDBY_TICKS && ledSum == index == 0 && at == Between
    }

    method StartUp(diff: (nat, nat) -> int, se: nat -> int)
      requires Valid() && Cleared()
      modifies r2rVal, filteredVal, initVal, padOrder, initValSe, beingPlayed, antiStickyApplied, hysterisisApplied,
               velocitySent
      ensures Initial(View()) && ScanReady(diff, r2rVal[..], padOrder[..])
      ensures forall p | 40 <= p < PADS :: View().pads[p].init == 0
      ensures InConverterRange(diff, se) ==> forall p | 0 <= p < PADS :: InRange(View(), p)
    {
      ghost var before := View();
      ghost var cal := Calibrate(diff, se);
      StartInRange(diff, se, before, View(), cal.order);
    }

    /** ISR(TIMER1_COMPA_vect), as far as the pads are concerned. */
    method TimerInterrupt()
      requires Valid()
      modifies this`thresholdsRaised, this`count, initVal
      ensures View() == OnTick(old(View()))
    {
      var anyPlayed := false;
      for pad := 0 to PADS + CONTROLS
        invariant anyPlayed == exists p | 0 <= p < pad :: beingPlayed[p]
      {
        anyPlayed := anyPlayed || beingPlayed[pad];
      }
      assert anyPlayed == AnyPlayed(View()) by {
        AnyPlayedIsAny(View(), beingPlayed[..]);
      }
      if !anyPlayed {
        count := count + 1;
        if count > STANDBY_TICKS {
          count := 0;
          if !thresholdsRaised {
            AdjustAll(STANDBY_ADJUST);
            thresholdsRaised := true;
          }
        }
      } else {
        if thresholdsRaised {
          AdjustAll(-STANDBY_ADJUST);
          thresholdsRaised := false;
        }
        count := 0;
      }
    }

    method AdjustAll(delta: int)
      requires Valid()
      modifies initVal
      ensures View() == old(View()).(pads := ShiftAll(old(View()).pads, delta))
    {
      for pad := 0 to PADS
        invariant forall p | 0 <= p < pad :: initVal[p] == old(initVal[p]) + delta
        invariant forall p | pad <= p < PADS :: initVal[p] == old(initVal[p])
      {
        initVal[pad] := initVal[pad] + delta;
      }
    }

    // ----- calibration -----

    /** The search over DAC codes for one pad. diff(pad, i) is -ADC_Read at code i. */
    method SearchPad(diff: (nat, nat) -> int, pad: nat)
      requires Valid() && pad < 40
      modifies r2rVal, filteredVal, initVal, padOrder
      ensures r2rVal[..] == old(r2rVal[..])[pad := CodeOf(diff, pad)] && padOrder[..] == old(padOrder[..])[pad := pad]
      ensures initVal[..] == old(initVal[..])[pad := CalibratedInit(diff, pad, old(initVal[pad]))]
    {
      r2rVal[pad] := 0;
      filteredVal[pad] := 0;
      var i := 0;
      while i < DAC_CODES
        invariant 0 <= i <= DAC_CODES && FirstCode(diff, pad, 0) == FirstCode(diff, pad, i)
      {
        var val := diff(pad, i);
        if val > -400 {
          r2rVal[pad] := i;
          if pad < 8 {
            initVal[pad] := val + 120;
          } else {
            initVal[pad] := val + 105;
          }
          break;
        }
        i := i + 1;
      }
      padOrder[pad] := pad;
    }

    /** The first loop of Calibrate. */
    method SearchCodes(diff: (nat, nat) -> int)
      requires Valid()
      modifies r2rVal, filteredVal, initVal, padOrder
      ensures forall p | 0 <= p < 40 :: r2rVal[p] == CodeOf(diff, p) && padOrder[p] == p
      ensures forall p | 0 <= p < 40 :: initVal[p] == CalibratedInit(diff, p, old(initVal[p]))
      ensures forall p | 40 <= p < PADS :: initVal[p] == old(initVal[p]) && r2rVal[p] == old(r2rVal[p])
    {
      for pad := 0 to 40
        invariant forall p | 0 <= p < pad :: r2rVal[p] == CodeOf(diff, p) && padOrder[p] == p
        invariant forall p | 0 <= p < pad :: initVal[p] == CalibratedInit(diff, p, old(initVal[p]))
        invariant forall p | pad <= p < PADS :: initVal[p] == old(initVal[p]) && r2rVal[p] == old(r2rVal[p])
      {
        SearchPad(diff, pad);
      }
    }

    /** The single-ended readings for the other pads, and the clearing of all flags. */
    method ReadRest(se: nat -> int)
      requires Valid()
      modifies initValSe, padOrder, beingPlayed, antiStickyApplied, hysterisisApplied, velocitySent, filteredVal
      ensures forall p | 0 <= p < 40 :: initValSe[p] == old(initValSe[p]) && padOrder[p] == old(padOrder[p])
      ensures forall p | 40 <= p < PADS :: initValSe[p] == se(p) - THRESHOLD_OVER_39 && padOrder[p] == p
      ensures forall p | 0 <= p < PADS + CONTROLS :: !beingPlayed[p]
      ensures forall p | 0 <= p < PADS ::
        !antiStickyApplied[p] && !hysterisisApplied[p] && !velocitySent[p] && filteredVal[p] == 0
    {
      for pad := 40 to PADS
        invariant forall p | 0 <= p < 40 :: initValSe[p] == old(initValSe[p]) && padOrder[p] == old(padOrder[p])
        invariant forall p | 40 <= p < pad :: initValSe[p] == se(p) - THRESHOLD_OVER_39 && padOrder[p] == p
      {
        initValSe[pad] := se(pad) - THRESHOLD_OVER_39;
        padOrder[pad] := pad;
      }
      forall p | 0 <= p < PADS + CONTROLS {
        beingPlayed[p] := false;
      }
      forall p | 0 <= p < PADS {
        antiStickyApplied[p] := false;
      }
      forall p | 0 <= p < PADS {
        hysterisisApplied[p] := false;
      }
      forall p | 0 <= p < PADS {
        velocitySent[p] := false;
      }
      forall p | 0 <= p < PADS {
        filteredVal[p] := 0;
      }
    }

    /** All that Calibrate reads and clears, before it sorts. */
    method Measure(diff: (nat, nat) -> int, se: nat -> int)
      requires Valid()
      modifies r2rVal, filteredVal, initVal, padOrder, initValSe, beingPlayed, antiStickyApplied, hysterisisApplied,
               velocitySent
      ensures forall p | 0 <= p < PADS :: padOrder[p] == p
      ensures forall p | 0 <= p < 40 :: r2rVal[p] == CodeOf(diff, p)
      ensures r2rVal[40..] == old(r2rVal[40..])
      ensures IsScanOrder(padOrder[..])
      ensures View() == old(View()).(pads := CalibratedPads(old(View()).pads, CalibrationOf(diff, se, padOrder[..])),
                                     controls := seq(CONTROLS, _ => false), order := padOrder[..])
    {
      SearchCodes(diff);
      ReadRest(se);
      ghost var cal := CalibrationOf(diff, se, padOrder[..]);
      forall p | 0 <= p < PADS ensures View().pads[p] == CalibratedPad(old(View()).pads[p], p, cal) {
      }
      assert View().controls == seq(CONTROLS, _ => false);
    }

    method SortPads(diff: (nat, nat) -> int)
      requires Valid()
      requires forall p | 0 <= p < PADS :: padOrder[p] == p
      requires forall p | 0 <= p < 40 :: r2rVal[p] == CodeOf(diff, p)
      modifies r2rVal, padOrder
      ensures ScanReady(diff, r2rVal[..], padOrder[..])
      ensures r2rVal[40..] == old(r2rVal[40..])
    {
      ghost var code := seq(40, p requires 0 <= p < 40 => CodeOf(diff, p));
      ghost var before := padOrder[..];
      BubbleSort(r2rVal, padOrder, 40, code);
      ScanReadyAfterSort(diff, before, code, r2rVal[..], padOrder[..]);
    }

    /** Calibrate: afterwards the scan order is by DAC code, ties by pad, and every entry of the
        order has the code found for its pad. */
    method Calibrate(diff: (nat, nat) -> int, se: nat -> int) returns (ghost cal: Calibration)
      requires Valid()
      modifies r2rVal, filteredVal, initVal, padOrder, initValSe, beingPlayed, antiStickyApplied, hysterisisApplied,
               velocitySent
      ensures CalShaped(cal) && cal == CalibrationOf(diff, se, padOrder[..])
      ensures ScanReady(diff, r2rVal[..], padOrder[..])
      ensures r2rVal[40..] == old(r2rVal[40..])
      ensures View() == old(View()).(pads := CalibratedPads(old(View()).pads, cal),
                                     controls := seq(CONTROLS, _ => false), order := cal.order)
    {
      Measure(diff, se);
      ghost var measured := View();
      SortPads(diff);
      assert View() == measured.(order := padOrder[..]);
      cal := CalibrationOf(diff, se, padOrder[..]);
      OrderIrrelevant(old(View()).pads, diff, se, padOrder[..]);
    }

    method PressReset()
      requires Valid() && Shaped(View()) && Enabled(View(), ResetDown)
      modifies this`at, beingPlayed
      ensures View() == Next(old(View()), ResetDown)
    {
      beingPlayed[PADS + RESET] := true;
      at := Pressed(at.pad);
    }

    method EndStandby()
      requires Valid() && Shaped(View()) && Enabled(View(), LeaveStandby)
      modifies this`at, this`thresholdsRaised
      ensures View() == Next(old(View()), LeaveStandby)
    {
      at := Calibrating(at.pad, thresholdsRaised);
      thresholdsRaised := false;
    }

    /** The calibration after the reset button was found down. */
    method Recalibrate(diff: (nat, nat) -> int, se: nat -> int) returns (ghost cal: Calibration)
      requires Valid() && Shaped(View()) && at.Calibrating?
      modifies this`at, r2rVal, filteredVal, initVal, padOrder, initValSe, beingPlayed, antiStickyApplied,
               hysterisisApplied, velocitySent
      ensures CalShaped(cal) && cal == CalibrationOf(diff, se, padOrder[..])
      ensures ScanReady(diff, r2rVal[..], padOrder[..])
      ensures View() == Next(old(View()), Calibrated(cal))
    {
      cal := Calibrate(diff, se);
      at := Ready(at.pad);
    }

    // ----- the visit of a pad, step by step -----

    method LatchPad() returns (pad: nat)
      requires Valid() && Shaped(View()) && Enabled(View(), Latch)
      modifies this`at
      ensures View() == Next(old(View()), Latch) && at == Latched(pad) && pad == padOrder[index]
    {
      pad := padOrder[index];
      at := Latched(pad);
    }

    method ResetReleased()
      requires Valid() && Shaped(View()) && Enabled(View(), ResetUp)
      modifies this`at, beingPlayed
      ensures View() == Next(old(View()), ResetUp)
    {
      beingPlayed[PADS + RESET] := false;
      at := Ready(at.pad);
    }

    method ReadControl(i: nat, on: bool)
      requires Valid() && Shaped(View()) && i < 5
      modifies beingPlayed
      ensures View() == Next(old(View()), Control(i, on))
    {
      beingPlayed[PADS + i] := on;
    }

    /** The filter, which halves the way to the new value and is cut off at the top. */
    method Smooth(pad: nat, val: int)
      requires Valid() && pad < PADS
      modifies filteredVal
      ensures filteredVal[..] == old(filteredVal[..])[pad := Smoothed(old(filteredVal[pad]), val)]
    {
      filteredVal[pad] := HalfTowardZero(filteredVal[pad] + val);
      if filteredVal[pad] >= PRESSURE_MAX {
        filteredVal[pad] := PRESSURE_MAX;
      }
    }

    /** The first reading of a pad below 40, up to the point where it is reported. */
    method FirstReading(pad: nat, reading: int) returns (val: int)
      requires Valid() && Shaped(View()) && at == Ready(pad) && pad < 40
      modifies this`at, this`index, initVal, filteredVal, antiStickyApplied
      ensures val == reading - old(initVal[pad])
      ensures View() == Next(old(View()), Visit(reading))
    {
      val := reading - initVal[pad];
      if val > 0 {
        if !velocitySent[pad] {
          at := Sampling(pad, val, SAMPLES);
        } else {
          Smooth(pad, val);
          if filteredVal[pad] == PRESSURE_MAX {
            if !antiStickyApplied[pad] {
              initVal[pad] := initVal[pad] + ANTI_STICKY_ADJUST;
              antiStickyApplied[pad] := true;
            }
          }
          at := Holding(pad);
        }
      } else if velocitySent[pad] {
        at := Releasing(pad);
      } else {
        at := Between;
        index := index + 1;
      }
    }

    method SampleOnce(pad: nat, reading: int, peak: int, ghost left: nat) returns (next: int)
      requires Valid() && Shaped(View()) && at == Sampling(pad, peak, left) && left > 0
      modifies this`at
      ensures View() == Next(old(View()), Sample(reading)) && at == Sampling(pad, next, left - 1)
    {
      var val := reading - initVal[pad];
      next := if val > peak then val else peak;
      at := Sampling(pad, next, left - 1);
    }

    method MarkAttack(pad: nat, peak: int) returns (velocity: int)
      requires Valid() && Shaped(View()) && at == Sampling(pad, peak, 0)
      modifies this`at, beingPlayed
      ensures View() == Next(old(View()), Go) && at == Attacked(pad, velocity)
    {
      velocity := peak / 2;
      if velocity > 127 {
        velocity := 127;
      }
      beingPlayed[pad] := true;
      at := Attacked(pad, velocity);
    }

    method CommitAttack(pad: nat, velocity: nat)
      requires Valid() && Shaped(View()) && at == Attacked(pad, velocity)
      modifies this`at, this`index, this`ledSum, velocitySent, filteredVal, initVal
      ensures View() == Next(old(View()), Go)
    {
      velocitySent[pad] := true;
      filteredVal[pad] := velocity;
      ledSum := ledSum + velocity;
      if pad < 16 {
        initVal[pad] := initVal[pad] - 35;
      } else {
        initVal[pad] := initVal[pad] - 25;
      }
      at := Between;
      index := index + 1;
    }

    method MarkHold(pad: nat)
      requires Valid() && Shaped(View()) && at == Holding(pad) && filteredVal[pad] >= 0
      modifies this`at, this`index, this`ledSum, beingPlayed
      ensures View() == Next(old(View()), Go)
    {
      beingPlayed[pad] := true;
      ledSum := ledSum + filteredVal[pad];
      at := Between;
      index := index + 1;
    }

    method CountSticky(pad: nat)
      requires Valid() && pad < PADS && antiStickyApplied[pad]
      modifies initVal, antiStickyApplied, stickyCount
      ensures var n := old(stickyCount[pad]) + 1; var free := n > STICKY_TIMEOUT;
        && stickyCount[..] == old(stickyCount[..])[pad := if free then 0 else n]
        && antiStickyApplied[..] == old(antiStickyApplied[..])[pad := !free]
        && initVal[..] == old(initVal[..])[pad := old(initVal[pad]) - if free then ANTI_STICKY_ADJUST else 0]
    {
      stickyCount[pad] := stickyCount[pad] + 1;
      if stickyCount[pad] > STICKY_TIMEOUT {
        initVal[pad] := initVal[pad] - ANTI_STICKY_ADJUST;
        antiStickyApplied[pad] := false;
        stickyCount[pad] := 0;
      }
    }

    method MarkRelease(pad: nat)
      requires Valid() && Shaped(View()) && at == Releasing(pad)
      modifies this`at, initVal, antiStickyApplied, stickyCount, beingPlayed
      ensures View() == Next(old(View()), Go) && at == Released(pad)
    {
      if antiStickyApplied[pad] {
        CountSticky(pad);
      }
      beingPlayed[pad] := false;
      at := Released(pad);
    }

    method CommitRelease(pad: nat)
      requires Valid() && Shaped(View()) && at == Released(pad)
      modifies this`at, this`index, velocitySent, initVal
      ensures View() == Next(old(View()), Go)
    {
      velocitySent[pad] := false;
      if pad < 16 {
        initVal[pad] := initVal[pad] + 35;
      } else {
        initVal[pad] := initVal[pad] + 25;
      }
      at := Between;
      index := index + 1;
    }

    /** The single-ended reading of a pad from 40 on. */
    method FirstReadingSe(pad: nat, reading: int) returns (val: int)
      requires Valid() && Shaped(View()) && at == Ready(pad) && pad >= 40
      modifies this`at, initValSe, hysterisisApplied
      ensures View() == Next(old(View()), Visit(reading))
      ensures at == if val > 0 then Touching(pad, val) else Untouching(pad)
    {
      val := initValSe[pad] - reading;
      if val > 0 {
        if !hysterisisApplied[pad] {
          initValSe[pad] := initValSe[pad] + HYSTERISIS_ADJUST_OVER_39;
          hysterisisApplied[pad] := true;
        }
        at := Touching(pad, val);
      } else {
        if hysterisisApplied[pad] {
          initValSe[pad] := initValSe[pad] - HYSTERISIS_ADJUST_OVER_39;
          hysterisisApplied[pad] := false;
        }
        at := Untouching(pad);
      }
    }

    method MarkTouch(pad: nat, val: int)
      requires Valid() && Shaped(View()) && at == Touching(pad, val) && val > 0 && filteredVal[pad] >= 0
      modifies this`at, this`index, this`ledSum, filteredVal, beingPlayed
      ensures View() == Next(old(View()), Go)
    {
      Smooth(pad, val * 2);
      beingPlayed[pad] := true;
      ledSum := ledSum + filteredVal[pad];
      at := Between;
      index := index + 1;
    }

    method MarkUntouch(pad: nat)
      requires Valid() && Shaped(View()) && at == Untouching(pad)
      modifies this`at, this`index, beingPlayed
      ensures View() == Next(old(View()), Go)
    {
      beingPlayed[pad] := false;
      at := Between;
      index := index + 1;
    }

    // ----- the main loop, with interrupts in between -----

    /** The firmware has come from the state s by the events es. */
    ghost predicate Follows(s: State, es: seq<Event>)
      reads this, initVal, initValSe, filteredVal, stickyCount, antiStickyApplied, hysterisisApplied, velocitySent,
            beingPlayed, padOrder
    {
      Valid() && Initial(s) && Possible(s, es) && View() == Run(s, es)
    }

    /** n timer interrupts in a row. */
    method Interrupts(n: nat, ghost s: State, ghost before: seq<Event>) returns (ghost es: seq<Event>)
      requires Follows(s, before)
      modifies this`thresholdsRaised, this`count, initVal
      ensures Follows(s, es) && es == WithTicks(before, n)
    {
      es := before;
      for i := 0 to n
        invariant Follows(s, es) && es == WithTicks(before, i)
      {
        RunExtend(s, es, Tick);
        TimerInterrupt();
        es := es + [Tick];
      }
    }

    method TakeUp(ticks: nat, ghost s: State, ghost before: seq<Event>) returns (pad: nat, ghost es: seq<Event>)
      requires Follows(s, before) && at == Between && index < PADS
      modifies this`at, this`thresholdsRaised, this`count, initVal
      ensures Follows(s, es) && at == Latched(pad) && es == WithTicks(before + [Latch], ticks) && pad == padOrder[index]
    {
      RunExtend(s, before, Latch);
      pad := LatchPad();
      es := Interrupts(ticks, s, before + [Latch]);
    }

    /** The reset button found down: interrupts come in before and while all is calibrated. */
    method Reset(env: Surroundings, pad: nat, ghost s: State, ghost before: seq<Event>)
        returns (ghost cal: Calibration, ghost es: seq<Event>)
      requires Follows(s, before) && at == Latched(pad)
      modifies this`at, this`thresholdsRaised, this`count, r2rVal, filteredVal, initVal, padOrder, initValSe,
               beingPlayed, antiStickyApplied, hysterisisApplied, velocitySent
      ensures Follows(s, es) && at == Ready(pad)
      ensures es == WithDown(before, env.ticks(1), env.ticks(2)) + [Calibrated(cal)]
      ensures CalibratedFrom(env, cal) && ScanReady(env.diff, r2rVal[..], padOrder[..])
    {
      es := TakeDown(env.ticks(1), env.ticks(2), pad, s, before);
      cal := Recalibrate(env.diff, env.se);
      RunExtend(s, es, Calibrated(cal));
      es := es + [Calibrated(cal)];
    }

    method TakeDown(marked: nat, left: nat, pad: nat, ghost s: State, ghost before: seq<Event>)
        returns (ghost es: seq<Event>)
      requires Follows(s, before) && at == Latched(pad)
      modifies this`at, this`thresholdsRaised, this`count, initVal, beingPlayed
      ensures Follows(s, es) && at.Calibrating? && at.pad == pad && es == WithDown(before, marked, left)
    {
      es := MarkDown(marked, pad, s, before);
      RunExtend(s, es, LeaveStandby);
      EndStandby();
      es := Interrupts(left, s, es + [LeaveStandby]);
    }

    method MarkDown(ticks: nat, pad: nat, ghost s: State, ghost before: seq<Event>) returns (ghost es: seq<Event>)
      requires Follows(s, before) && at == Latched(pad)
      modifies this`at, this`thresholdsRaised, this`count, initVal, beingPlayed
      ensures Follows(s, es) && at == Pressed(pad) && es == WithTicks(before + [ResetDown], ticks)
    {
      RunExtend(s, before, ResetDown);
      PressReset();
      es := Interrupts(ticks, s, before + [ResetDown]);
    }

    method ReadReset(env: Surroundings, pad: nat, ghost s: State, ghost before: seq<Event>)
        returns (ghost cal: Calibration, ghost es: seq<Event>)
      requires Follows(s, before) && at == Latched(pad)
      modifies this`at, this`thresholdsRaised, this`count, r2rVal, filteredVal, initVal, padOrder, initValSe,
               beingPlayed, antiStickyApplied, hysterisisApplied, velocitySent
      ensures Follows(s, es) && at == Ready(pad) && es == WithReset(before, env, cal) && CalibratedFrom(env, cal)
      ensures env.reset ==> ScanReady(env.diff, r2rVal[..], padOrder[..])
      ensures !env.reset ==> r2rVal[..] == old(r2rVal[..]) && padOrder[..] == old(padOrder[..])
    {
      if env.reset {
        cal, es := Reset(env, pad, s, before);
      } else {
        RunExtend(s, before, ResetUp);
        ResetReleased();
        cal, es := Calibration([], [], []), before + [ResetUp];
      }
    }

    method ReadControls(control: nat -> bool, pad: nat, ghost s: State, ghost before: seq<Event>)
        returns (ghost es: seq<Event>)
      requires Follows(s, before) && at == Ready(pad)
      modifies beingPlayed
      ensures Follows(s, es) && at == Ready(pad) && es == WithControls(before, control, 5)
    {
      es := before;
      for i := 0 to 5
        invariant Follows(s, es) && at == Ready(pad) && es == WithControls(before, control, i)
      {
        RunExtend(s, es, Control(i, control(i)));
        ReadControl(i, control(i));
        es := es + [Control(i, control(i))];
      }
    }

    /** R2R_Write with the code for the place in the order that the loop has come to. */
    method WriteCode() returns (code: nat)
      requires Valid() && index < PADS
      modifies this`dac
      ensures code == dac == r2rVal[index]
    {
      dac := r2rVal[index];
      code := dac;
    }

    /** The start of a visit: the pad is latched, the reset button read, the DAC code written and the
        controls read. */
    method BeginVisit(env: Surroundings, ghost s: State, ghost before: seq<Event>)
        returns (pad: nat, code: nat, ghost cal: Calibration, ghost es: seq<Event>)
      requires Follows(s, before) && at == Between && index < PADS
      modifies this`at, this`dac, this`thresholdsRaised, this`count, r2rVal, filteredVal, initVal, padOrder,
               initValSe, beingPlayed, antiStickyApplied, hysterisisApplied, velocitySent
      ensures Follows(s, es) && at == Ready(pad) && es == WithBegin(before, env, cal) && CalibratedFrom(env, cal)
      ensures pad == old(padOrder[index]) && code == r2rVal[index]
      ensures env.reset ==> ScanReady(env.diff, r2rVal[..], padOrder[..])
      ensures !env.reset ==> r2rVal[..] == old(r2rVal[..]) && padOrder[..] == old(padOrder[..])
    {
      pad, es := TakeUp(env.ticks(0), s, before);
      cal, es := ReadReset(env, pad, s, es);
      code := WriteCode();
      es := ReadInputs(env, pad, s, es);
    }

    method ReadInputs(env: Surroundings, pad: nat, ghost s: State, ghost before: seq<Event>)
        returns (ghost es: seq<Event>)
      requires Follows(s, before) && at == Ready(pad)
      modifies this`thresholdsRaised, this`count, initVal, beingPlayed
      ensures Follows(s, es) && at == Ready(pad) && es == WithInputs(before, env)
    {
      es := Interrupts(env.ticks(3), s, before);
      es := ReadControls(env.control, pad, s, es);
      es := Interrupts(env.ticks(4), s, es);
    }

    /** An attack has come to its n-th sample. */
    ghost predicate AtSample(s: State, before: seq<Event>, env: Surroundings, es: seq<Event>,
                             pad: nat, peak: int, n: nat)
      requires n <= SAMPLES
      reads this, initVal, initValSe, filteredVal, stickyCount, antiStickyApplied, hysterisisApplied, velocitySent,
            beingPlayed, padOrder
    {
      Follows(s, es) && at == Sampling(pad, peak, SAMPLES - n) && es == WithSamples(before, env, n)
    }

    /** Interrupts, and the sample after them. */
    method NextSample(pad: nat, peak: int, env: Surroundings, n: nat,
                      ghost s: State, ghost before: seq<Event>, ghost es0: seq<Event>)
        returns (next: int, ghost es: seq<Event>)
      requires n < SAMPLES && AtSample(s, before, env, es0, pad, peak, n)
      modifies this`at, this`thresholdsRaised, this`count, initVal
      ensures AtSample(s, before, env, es, pad, next, n + 1)
    {
      es := Interrupts(env.ticks(n + 5), s, es0);
      RunExtend(s, es, Sample(env.reading(n + 1)));
      next := SampleOnce(pad, env.reading(n + 1), peak, SAMPLES - n);
      es := es + [Sample(env.reading(n + 1))];
    }

    /** The 200 samples of an attack, interrupts coming in as they like. */
    method SampleAttack(pad: nat, first: int, env: Surroundings, ghost s: State, ghost before: seq<Event>)
        returns (peak: int, ghost es: seq<Event>)
      requires Follows(s, before) && at == Sampling(pad, first, SAMPLES)
      modifies this`at, this`thresholdsRaised, this`count, initVal
      ensures Follows(s, es) && at == Sampling(pad, peak, 0) && es == WithSamples(before, env, SAMPLES)
    {
      es := before;
      peak := first;
      for i := 0 to SAMPLES
        invariant AtSample(s, before, env, es, pad, peak, i)
      {
        peak, es := NextSample(pad, peak, env, i, s, before, es);
      }
    }

    method ReportAttack(pad: nat, peak: int, ticks: nat, ghost s: State, ghost before: seq<Event>)
        returns (ghost es: seq<Event>)
      requires Follows(s, before) && at == Sampling(pad, peak, 0)
      modifies this`at, this`index, this`ledSum, this`thresholdsRaised, this`count, initVal, filteredVal, velocitySent,
               beingPlayed
      ensures Follows(s, es) && at == Between && index == old(index) + 1
      ensures es == WithTicks(before + [Go], ticks) + [Go]
    {
      var velocity;
      velocity, es := ShowAttack(pad, peak, ticks, s, before);
      RunExtend(s, es, Go);
      CommitAttack(pad, velocity);
      es := es + [Go];
    }

    method ShowAttack(pad: nat, peak: int, ticks: nat, ghost s: State, ghost before: seq<Event>)
        returns (velocity: nat, ghost es: seq<Event>)
      requires Follows(s, before) && at == Sampling(pad, peak, 0)
      modifies this`at, this`thresholdsRaised, this`count, initVal, beingPlayed
      ensures Follows(s, es) && at == Attacked(pad, velocity) && es == WithTicks(before + [Go], ticks)
    {
      RunKeepsInv(s, before);
      assert FlagsMatch(View(), pad);
      RunExtend(s, before, Go);
      velocity := MarkAttack(pad, peak);
      es := Interrupts(ticks, s, before + [Go]);
    }

    method ReportRelease(pad: nat, env: Surroundings, ghost s: State, ghost before: seq<Event>)
        returns (ghost es: seq<Event>)
      requires Follows(s, before) && at == Releasing(pad)
      modifies this`at, this`index, this`thresholdsRaised, this`count, initVal, antiStickyApplied, stickyCount,
               velocitySent, beingPlayed
      ensures Follows(s, es) && at == Between && es == WithRelease(before, env) && index == old(index) + 1
    {
      es := ShowRelease(pad, env, s, before);
      RunExtend(s, es, Go);
      CommitRelease(pad);
      es := es + [Go];
    }

    /** A press, from its first reading to its end. */
    method Attack(pad: nat, first: int, env: Surroundings, ghost s: State, ghost before: seq<Event>)
        returns (ghost es: seq<Event>)
      requires Follows(s, before) && at == Sampling(pad, first, SAMPLES)
      modifies this`at, this`index, this`ledSum, this`thresholdsRaised, this`count, initVal, filteredVal, velocitySent,
               beingPlayed
      ensures Follows(s, es) && at == Between && es == WithAttack(before, env) && index == old(index) + 1
    {
      var peak;
      peak, es := SampleAttack(pad, first, env, s, before);
      es := ReportAttack(pad, peak, env.ticks(SAMPLES + 5), s, es);
    }

    method ShowRelease(pad: nat, env: Surroundings, ghost s: State, ghost before: seq<Event>)
        returns (ghost es: seq<Event>)
      requires Follows(s, before) && at == Releasing(pad)
      modifies this`at, this`thresholdsRaised, this`count, initVal, antiStickyApplied, stickyCount, beingPlayed
      ensures Follows(s, es) && at == Released(pad)
      ensures es == WithTicks(WithReport(before, env), env.ticks(6))
    {
      es := Interrupts(env.ticks(5), s, before);
      RunExtend(s, es, Go);
      MarkRelease(pad);
      es := Interrupts(env.ticks(6), s, es + [Go]);
    }

    method ReportPressure(pad: nat, env: Surroundings, ghost s: State, ghost before: seq<Event>)
        returns (ghost es: seq<Event>)
      requires Follows(s, before) && at == Holding(pad)
      modifies this`at, this`index, this`ledSum, this`thresholdsRaised, this`count, initVal, beingPlayed
      ensures Follows(s, es) && at == Between && es == WithReport(before, env) && index == old(index) + 1
    {
      es := Interrupts(env.ticks(5), s, before);
      RunKeepsInv(s, es);
      assert FlagsMatch(View(), pad);
      RunExtend(s, es, Go);
      MarkHold(pad);
      es := es + [Go];
    }

    /** A pad below 40 once it has been latched. */
    method VisitPad(pad: nat, env: Surroundings, ghost s: State, ghost before: seq<Event>)
        returns (ghost es: seq<Event>)
      requires Follows(s, before) && at == Ready(pad) && pad < 40
      modifies this`at, this`index, this`ledSum, this`thresholdsRaised, this`count, initVal, filteredVal,
               antiStickyApplied, stickyCount, velocitySent, beingPlayed
      ensures Follows(s, es) && at == Between && index == old(index) + 1
      ensures es == WithPad(before, pad, old(View()).pads[pad], env)
    {
      ghost var q := View().pads[pad];
      var sent := velocitySent[pad];
      assert q.sent == sent && q.init == initVal[pad];
      RunExtend(s, before, Visit(env.reading(0)));
      var val := FirstReading(pad, env.reading(0));
      es := before + [Visit(env.reading(0))];
      if val > 0 && !sent {
        es := Attack(pad, val, env, s, es);
      } else if val > 0 {
        es := ReportPressure(pad, env, s, es);
      } else if sent {
        es := ReportRelease(pad, env, s, es);
      }
    }

    /** A pad from 40 on once it has been latched. */
    method VisitPadSe(pad: nat, env: Surroundings, ghost s: State, ghost before: seq<Event>)
        returns (ghost es: seq<Event>)
      requires Follows(s, before) && at == Ready(pad) && pad >= 40
      modifies this`at, this`index, this`ledSum, this`thresholdsRaised, this`count, initVal, initValSe,
               hysterisisApplied, filteredVal, beingPlayed
      ensures Follows(s, es) && at == Between && index == old(index) + 1
      ensures es == WithReport(before + [Visit(env.reading(0))], env)
    {
      RunExtend(s, before, Visit(env.reading(0)));
      var val := FirstReadingSe(pad, env.reading(0));
      es := Interrupts(env.ticks(5), s, before + [Visit(env.reading(0))]);
      es := ReportTouch(pad, val, s, es);
    }

    method ReportTouch(pad: nat, val: int, ghost s: State, ghost before: seq<Event>) returns (ghost es: seq<Event>)
      requires Follows(s, before) && at == if val > 0 then Touching(pad, val) else Untouching(pad)
      modifies this`at, this`index, this`ledSum, filteredVal, beingPlayed
      ensures Follows(s, es) && at == Between && es == before + [Go] && index == old(index) + 1
    {
      RunKeepsInv(s, before);
      assert FlagsMatch(View(), pad);
      RunExtend(s, before, Go);
      if val > 0 {
        MarkTouch(pad, val);
      } else {
        MarkUntouch(pad);
      }
      es := before + [Go];
    }

    /** One visit, whatever pad it is; the pad and the DAC code that is set for it. What happens is
        what the surroundings say, and nothing else. */
    method Visiting(env: Surroundings, ghost s: State, ghost before: seq<Event>)
        returns (visit: (nat, nat), ghost cal: Calibration, ghost es: seq<Event>)
      requires Follows(s, before) && at == Between && index < PADS
      modifies this`at, this`dac, this`index, this`ledSum, this`thresholdsRaised, this`count, r2rVal, filteredVal,
               initVal, padOrder, initValSe, beingPlayed, antiStickyApplied, hysterisisApplied, velocitySent,
               stickyCount
      ensures Follows(s, es) && at == Between && index == old(index) + 1
      ensures IsVisit(s, before, env, cal, es) && CalibratedFrom(env, cal)
      ensures visit == (old(padOrder[index]), r2rVal[old(index)])
      ensures env.reset ==> ScanReady(env.diff, r2rVal[..], padOrder[..])
      ensures !env.reset ==> r2rVal[..] == old(r2rVal[..]) && padOrder[..] == old(padOrder[..])
    {
      var pad, code;
      pad, code, cal, es := BeginVisit(env, s, before);
      visit := (pad, code);
      if pad < 40 {
        es := VisitPad(pad, env, s, es);
      } else {
        es := VisitPadSe(pad, env, s, es);
      }
    }

    /** One round of the main loop: 48 visits, and the pressure they add up to for the LED. Before and
        after it, order and codes are those of the last calibration. Unless the button is found down
        on that very visit, the code set for a pad is its own. If it is never found down, every pad is
        visited once, and is afterwards played or not as its readings decide. */
    method ScanRound(env: nat -> Surroundings, ghost diff: (nat, nat) -> int, ghost s: State, ghost before: seq<Event>)
        returns (sum: nat, visits: seq<(nat, nat)>, ghost cals: seq<Calibration>, ghost stages: seq<seq<Event>>,
                 ghost es: seq<Event>)
      requires Follows(s, before) && at == Between && index == 0 && ScanReady(diff, r2rVal[..], padOrder[..])
      modifies this`at, this`dac, this`index, this`ledSum, this`thresholdsRaised, this`count, r2rVal, filteredVal,
               initVal, padOrder, initValSe, beingPlayed, antiStickyApplied, hysterisisApplied, velocitySent,
               stickyCount
      ensures Follows(s, es) && at == Between && index == 0 && ledSum == 0
      ensures RoundEvents(s, env, cals, stages, before) && es == stages[PADS] + [EndRound]
      ensures AddsUpTo(s, stages[PADS], sum)
      ensures |visits| == PADS && OwnCodes(env, diff, visits)
      ensures ScanReady(LastDiff(env, PADS, diff), r2rVal[..], padOrder[..])
      ensures NoReset(env, PADS) ==>
        && r2rVal[..] == old(r2rVal[..]) && padOrder[..] == old(padOrder[..])
        && (forall p | 0 <= p < PADS :: VisitedOnce(visits, p))
        && AllPlayedAsRead(s, env, cals, stages, View(), visits)
      ensures NoReset(env, PADS) && NoTicks(env) ==> AllPlayedAtOnce(old(View()), env, View(), visits)
    {
      visits, cals, stages := Visits(env, diff, s, before);
      ghost var codes, order := r2rVal[..], padOrder[..];
      sum, es := EndRoundOf(s, stages[PADS]);
      assert r2rVal[..] == codes && padOrder[..] == order;
      RoundPlayed(s, env, cals, stages, before, old(View()), View(), visits);
    }

    method Visits(env: nat -> Surroundings, ghost diff: (nat, nat) -> int, ghost s: State, ghost before: seq<Event>)
        returns (visits: seq<(nat, nat)>, ghost cals: seq<Calibration>, ghost stages: seq<seq<Event>>)
      requires Follows(s, before) && at == Between && index == 0 && ScanReady(diff, r2rVal[..], padOrder[..])
      modifies this`at, this`dac, this`index, this`ledSum, this`thresholdsRaised, this`count, r2rVal, filteredVal,
               initVal, padOrder, initValSe, beingPlayed, antiStickyApplied, hysterisisApplied, velocitySent,
               stickyCount
      ensures RoundEvents(s, env, cals, stages, before) && Follows(s, stages[PADS])
      ensures at == Between && index == |visits| == PADS && OwnCodes(env, diff, visits)
      ensures ScanReady(LastDiff(env, PADS, diff), r2rVal[..], padOrder[..])
      ensures NoReset(env, PADS) ==>
        && r2rVal[..] == old(r2rVal[..]) && padOrder[..] == old(padOrder[..]) && FollowsOrder(visits, old(padOrder[..]))
        && (forall p | 0 <= p < PADS :: VisitedOnce(visits, p))
    {
      visits, cals, stages := [], [], [before];
      ghost var codes0, order0 := r2rVal[..], padOrder[..];
      for i := 0 to PADS
        invariant at == Between && index == i == |visits|
        invariant EventsSoFar(s, env, cals, stages, before, i) && Follows(s, stages[i])
        invariant RoundSoFar(env, diff, codes0, order0, r2rVal[..], padOrder[..], visits)
      {
        ghost var codes, order := r2rVal[..], padOrder[..];
        var visit;
        ghost var cal, es;
        visit, cal, es := Visiting(env(i), s, stages[i]);
        RoundOneMore(env, diff, codes0, order0, codes, order, r2rVal[..], padOrder[..], visits, visit);
        EventsOneMore(s, env, cals, stages, before, i, cal, es);
        visits, cals, stages := visits + [visit], cals + [cal], stages + [es];
      }
      RoundComplete(env, diff, codes0, order0, r2rVal[..], padOrder[..], visits);
    }

    /** The pressure sum goes to the LED phase, and the loop starts over. */
    method EndRoundOf(ghost s: State, ghost before: seq<Event>) returns (sum: nat, ghost es: seq<Event>)
      requires Follows(s, before) && at == Between && index == PADS
      modifies this`index, this`ledSum
      ensures Follows(s, es) && at == Between && index == 0 && ledSum == 0
      ensures es == before + [EndRound] && AddsUpTo(s, before, sum) && View().pads == Run(s, before).pads
    {
      RunExtend(s, before, EndRound);
      sum := ledSum;
      ledSum := 0;
      index := 0;
      es := before + [EndRound];
    }
  }

  /** If the button was found down, cal is the calibration that the readings make. */
  ghost predicate CalibratedFrom(env: Surroundings, cal: Calibration) {
    env.reset ==>
      cal == CalibrationOf(env.diff, env.se, cal.order) && exists codes :: ScanReady(env.diff, codes, cal.order)
  }

  /** The events of n visits that have come after those before. */
  ghost predicate EventsSoFar(s: State, env: nat -> Surroundings, cals: seq<Calibration>, stages: seq<seq<Event>>,
                              before: seq<Event>, n: nat)
    requires Shaped(s)
  {
    && |cals| == n && AreVisits(s, env, cals, stages) && stages[0] == before
    && forall i | 0 <= i < n :: CalibratedFrom(env(i), cals[i])
  }

  lemma EventsOneMore(s: State, env: nat -> Surroundings, cals: seq<Calibration>, stages: seq<seq<Event>>,
                      before: seq<Event>, n: nat, cal: Calibration, es: seq<Event>)
    requires Shaped(s) && EventsSoFar(s, env, cals, stages, before, n)
    requires IsVisit(s, stages[n], env(n), cal, es) && CalibratedFrom(env(n), cal)
    ensures EventsSoFar(s, env, cals + [cal], stages + [es], before, n + 1)
  {
  }

  /** stages are the events of a round that came after those before, visit by visit. */
  ghost predicate RoundEvents(s: State, env: nat -> Surroundings, cals: seq<Calibration>, stages: seq<seq<Event>>,
                              before: seq<Event>)
    requires Shaped(s)
  {
    EventsSoFar(s, env, cals, stages, before, PADS)
  }

  ghost predicate AddsUpTo(s: State, es: seq<Event>, sum: nat)
    requires Shaped(s)
  {
    Possible(s, es) && Run(s, es).ledSum == sum
  }

  /** At t the pad is played or not as the readings of its own visit have decided. */
  ghost predicate PlayedAsRead(s: State, env: Surroundings, cal: Calibration, before: seq<Event>, t: State, p: nat)
    requires Shaped(s)
  {
    var begun := WithBegin(before, env, cal);
    && p < PADS && |t.pads| == PADS && Possible(s, begun) && Run(s, begun).at == Ready(p)
    && Outcome(Run(s, begun).pads[p], t.pads[p], p, env, false)
  }

  /** The same by the threshold at the start of the round. */
  ghost predicate PlayedAtOnce(a: State, env: Surroundings, t: State, p: nat) {
    p < PADS && |a.pads| == |t.pads| == PADS && Outcome(a.pads[p], t.pads[p], p, env, true)
  }

  ghost predicate AllPlayedAsRead(s: State, env: nat -> Surroundings, cals: seq<Calibration>,
                                  stages: seq<seq<Event>>, t: State, visits: seq<(nat, nat)>)
    requires Shaped(s) && |cals| == |visits| == PADS && |stages| == PADS + 1
  {
    forall i | 0 <= i < PADS :: PlayedAsRead(s, env(i), cals[i], stages[i], t, visits[i].0)
  }

  ghost predicate AllPlayedAtOnce(a: State, env: nat -> Surroundings, t: State, visits: seq<(nat, nat)>)
    requires |visits| == PADS
  {
    forall i | 0 <= i < PADS :: PlayedAtOnce(a, env(i), t, visits[i].0)
  }

  ghost predicate NoTicks(env: nat -> Surroundings) {
    forall i | 0 <= i < PADS :: Still(env(i))
  }

  lemma RoundPlayed(s: State, env: nat -> Surroundings, cals: seq<Calibration>, stages: seq<seq<Event>>,
                    before: seq<Event>, a: State, t: State, visits: seq<(nat, nat)>)
    requires Initial(s) && RoundEvents(s, env, cals, stages, before) && |visits| == PADS
    requires Possible(s, before) && Run(s, before) == a && a.at.Between? && a.index == 0
    requires Possible(s, stages[PADS]) && Run(s, stages[PADS]).pads == t.pads
    requires NoReset(env, PADS) ==> FollowsOrder(visits, a.order)
    ensures NoReset(env, PADS) ==> AllPlayedAsRead(s, env, cals, stages, t, visits)
    ensures NoReset(env, PADS) && NoTicks(env) ==> AllPlayedAtOnce(a, env, t, visits)
  {
    forall i | NoReset(env, PADS) && 0 <= i < PADS
      ensures PlayedAsRead(s, env(i), cals[i], stages[i], t, visits[i].0)
    {
      RoundDecides(s, env, cals, stages, i, false);
    }
    forall i | NoReset(env, PADS) && NoTicks(env) && 0 <= i < PADS
      ensures PlayedAtOnce(a, env(i), t, visits[i].0)
    {
      StillRoundDecides(s, env, cals, stages, i);
    }
  }

  /** The readings of the last calibration when the visits below n have been made. */
  function LastDiff(env: nat -> Surroundings, n: nat, diff: (nat, nat) -> int): (nat, nat) -> int {
    if n == 0 then diff else if env(n - 1).reset then env(n - 1).diff else LastDiff(env, n - 1, diff)
  }

  /** The code set on each visit of a pad below 40 is the one the last calibration found for it. */
  ghost predicate OwnCodes(env: nat -> Surroundings, diff: (nat, nat) -> int, visits: seq<(nat, nat)>) {
    forall i | 0 <= i < |visits| ::
      visits[i].0 < 40 && !env(i).reset ==> visits[i].1 == CodeOf(LastDiff(env, i, diff), visits[i].0)
  }

  ghost predicate VisitedOnce(visits: seq<(nat, nat)>, p: nat) {
    exists i :: 0 <= i < |visits| && visits[i].0 == p && forall j | 0 <= j < |visits| && visits[j].0 == p :: j == i
  }

  predicate FollowsOrder(visits: seq<(nat, nat)>, order: seq<nat>) {
    |visits| <= |order| && forall j | 0 <= j < |visits| :: visits[j].0 == order[j]
  }

  /** What holds of codes, order and visits within a round that began with codes0 and order0. */
  ghost predicate RoundSoFar(env: nat -> Surroundings, diff: (nat, nat) -> int, codes0: seq<nat>, order0: seq<nat>,
                             codes: seq<nat>, order: seq<nat>, visits: seq<(nat, nat)>) {
    && ScanReady(LastDiff(env, |visits|, diff), codes, order)
    && OwnCodes(env, diff, visits)
    && (NoReset(env, |visits|) ==> codes == codes0 && order == order0 && FollowsOrder(visits, order0))
  }

  lemma OwnCodeOneMore(env: nat -> Surroundings, diff: (nat, nat) -> int, visits: seq<(nat, nat)>, visit: (nat, nat),
                       codes: seq<nat>, order: seq<nat>)
    requires OwnCodes(env, diff, visits) && |visits| < PADS && ScanReady(LastDiff(env, |visits|, diff), codes, order)
    requires visit.0 == order[|visits|] && (!env(|visits|).reset ==> visit.1 == codes[|visits|])
    ensures OwnCodes(env, diff, visits + [visit])
  {
    if visit.0 < 40 {
      assert |visits| < 40;
    }
  }

  /** One more visit; codes1 and order1 are what it leaves. */
  lemma RoundOneMore(env: nat -> Surroundings, diff: (nat, nat) -> int, codes0: seq<nat>, order0: seq<nat>,
                     codes: seq<nat>, order: seq<nat>, codes1: seq<nat>, order1: seq<nat>,
                     visits: seq<(nat, nat)>, visit: (nat, nat))
    requires RoundSoFar(env, diff, codes0, order0, codes, order, visits) && |visits| < PADS
    requires |codes1| == PADS && visit == (order[|visits|], codes1[|visits|])
    requires env(|visits|).reset ==> ScanReady(env(|visits|).diff, codes1, order1)
    requires !env(|visits|).reset ==> codes1 == codes && order1 == order
    ensures RoundSoFar(env, diff, codes0, order0, codes1, order1, visits + [visit])
  {
    OwnCodeOneMore(env, diff, visits, visit, codes, order);
    if NoReset(env, |visits| + 1) {
      assert !env(|visits|).reset && NoReset(env, |visits|);
    }
  }

  lemma RoundComplete(env: nat -> Surroundings, diff: (nat, nat) -> int, codes0: seq<nat>, order0: seq<nat>,
                      codes: seq<nat>, order: seq<nat>, visits: seq<(nat, nat)>)
    requires RoundSoFar(env, diff, codes0, order0, codes, order, visits) && |visits| == PADS
    ensures NoReset(env, PADS) ==> forall p | 0 <= p < PADS :: VisitedOnce(visits, p)
  {
    forall p | NoReset(env, PADS) && 0 <= p < PADS ensures VisitedOnce(visits, p) {
      OrderVisitsOnce(LastDiff(env, PADS, diff), codes, order, visits, p);
    }
  }

  lemma OrderVisitsOnce(diff: (nat, nat) -> int, codes: seq<nat>, order: seq<nat>, visits: seq<(nat, nat)>, p: nat)
    requires ScanReady(diff, codes, order) && |visits| == PADS && FollowsOrder(visits, order) && p < PADS
    ensures VisitedOnce(visits, p)
  {
    EachPadOnce(diff, codes, order, p);
    var i :| 0 <= i < PADS && order[i] == p && forall j | 0 <= j < PADS && order[j] == p :: j == i;
    assert visits[i].0 == p;
  }

  /** Readings within the converter's range, calibrated at start-up, give thresholds in range; where
      no DAC code is found the threshold is still the zero it was. */
  lemma StartInRange(diff: (nat, nat) -> int, se: nat -> int, before: State, s: State, order: seq<nat>)
    requires |before.pads| == PADS && IsScanOrder(order)
    requires forall p | 0 <= p < PADS :: before.pads[p].init == 0 && before.pads[p].sticky == 0
    requires !before.raised && before.idle <= STANDBY_TICKS
    requires before.ledSum == before.index == 0 && before.at == Between
    requires s == before.(pads := CalibratedPads(before.pads, CalibrationOf(diff, se, order)),
                          controls := seq(CONTROLS, _ => false), order := order)
    ensures Initial(s)
    ensures forall p | 40 <= p < PADS :: s.pads[p].init == 0
    ensures InConverterRange(diff, se) ==> forall p | 0 <= p < PADS :: InRange(s, p)
  {
    forall p | InConverterRange(diff, se) && 0 <= p < PADS ensures InRange(s, p) {
      FirstCodeIsFirst(diff, p, 0);
    }
  }

  ghost predicate InConverterRange(diff: (nat, nat) -> int, se: nat -> int) {
    (forall p, i | 0 <= p < 40 && 0 <= i < DAC_CODES :: DiffReading(diff(p, i)))
    && (forall p | 40 <= p < PADS :: SeReading(se(p)))
  }

  lemma AnyPlayedIsAny(s: State, played: seq<bool>)
    requires |s.pads| == PADS && |played| == PADS + CONTROLS && s.controls == played[PADS..]
    requires forall p | 0 <= p < PADS :: s.pads[p].played == played[p]
    ensures AnyPlayed(s) <==> exists p | 0 <= p < PADS + CONTROLS :: played[p]
  {
    if p :| 0 <= p < PADS + CONTROLS && played[p] {
      if p >= PADS {
        assert s.controls[p - PADS];
      } else {
        assert s.pads[p].played;
      }
    }
  }
}
