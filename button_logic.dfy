/** The debounce and edge-detection rules of the button manager, stated on
    values: one button record, the whole table, and the manager's state.
    The class in module Manager updates an array in place and is proved to
    follow these functions. */
module ButtonLogic {
  import opened Uint
  import opened ButtonConfig

  /** A raw level read from a digital pin. With the internal pull-up enabled,
      a released button reads High and a pressed one reads Low. */
  datatype Level = Low | High

  datatype Option<T> = None | Some(value: T)

  /** One button slot of the manager's table. */
  datatype Button = Button(pin: u8, pressed: bool, previousState: bool, pressCount: u32, name: string)

  /** Everything the manager holds: the table, the time of the last accepted
      poll and the configured debounce interval (milliseconds). */
  datatype State = State(buttons: seq<Button>, lastDebounce: u32, debounceTime: u32)

  /** The result of one call of `millis()` and of `digitalRead` on every pin,
      as seen by one call of `update()`. */
  datatype Poll = Poll(now: u32, read: u8 -> Level)

  const DEFAULT_DEBOUNCE_MS: u32 := 50
  const UNKNOWN_NAME: string := "UNKNOWN"

  // ---------------------------------------------------------------------
  // Construction and the table invariant

  /** The table as the constructor leaves it: every button released, with
      a zero count, in configuration order. */
  function InitialButtons(): seq<Button>
  {
    seq(TOTAL_BUTTONS, i requires 0 <= i < TOTAL_BUTTONS => Button(PINS[i], false, false, 0, NAMES[i]))
  }

  /** What holds of the table at all times: six slots carrying the configured
      pins and names, and a debounced state equal to the previous one. */
  ghost predicate Configured(bs: seq<Button>)
  {
    |bs| == TOTAL_BUTTONS &&
    forall i :: 0 <= i < |bs| ==>
      bs[i].pin == PINS[i] && bs[i].name == NAMES[i] && bs[i].pressed == bs[i].previousState
  }

  lemma InitialConfigured()
    ensures Configured(InitialButtons())
    ensures forall i :: 0 <= i < TOTAL_BUTTONS ==>
      !InitialButtons()[i].pressed && !InitialButtons()[i].previousState && InitialButtons()[i].pressCount == 0
  {
  }

  // ---------------------------------------------------------------------
  // One accepted poll

  /** `currentState`: the button is down when its pin reads Low. */
  predicate IsDown(level: Level)
  {
    level == Low
  }

  /** A fresh press: down now, released at the previous accepted poll. */
  predicate RisingEdge(b: Button, level: Level)
  {
    IsDown(level) && !b.previousState
  }

  /** One button in one accepted poll: count a rising edge, then record the
      new debounced state as both the current and the previous one. */
  function StepButton(b: Button, level: Level): Button
  {
    var current := IsDown(level);
    var counted := if current && !b.previousState then b.(pressCount := Inc32(b.pressCount)) else b;
    counted.(pressed := current, previousState := current)
  }

  /** The text logged for a press: "BOTAO <name> PRESSIONADO". */
  function PressMessage(name: string): string
  {
    "BOTAO " + name + " PRESSIONADO"
  }

  /** The body of the accepted branch: every button stepped with the level
      read on its own pin. */
  function Step(bs: seq<Button>, read: u8 -> Level): seq<Button>
  {
    seq(|bs|, i requires 0 <= i < |bs| => StepButton(bs[i], read(bs[i].pin)))
  }

  /** The press messages one accepted poll logs, in table order. */
  function Events(bs: seq<Button>, read: u8 -> Level): seq<string>
  {
    if bs == [] then []
    else
      var b := bs[|bs| - 1];
      Events(bs[..|bs| - 1], read) + (if RisingEdge(b, read(b.pin)) then [PressMessage(b.name)] else [])
  }

  /** The messages of the first i + 1 slots are those of the first i, then
      the message of slot i if it has a rising edge. */
  lemma EventsExtend(bs: seq<Button>, i: nat, read: u8 -> Level)
    requires i < |bs|
    ensures Events(bs[..i + 1], read) == Events(bs[..i], read)
      + (if RisingEdge(bs[i], read(bs[i].pin)) then [PressMessage(bs[i].name)] else [])
  {
    assert bs[..i + 1][..i] == bs[..i];
  }

  /** Time elapsed since the last accepted poll, with `unsigned long`
      wrap-around. */
  function Elapsed(now: u32, last: u32): u32
  {
    Sub32(now, last)
  }

  /** The debounce gate: a poll is accepted only when strictly more than the
      debounce interval has elapsed. */
  predicate Accepts(s: State, now: u32)
  {
    Elapsed(now, s.lastDebounce) > s.debounceTime
  }

  /** `update()`: ignored inside the debounce window, otherwise stamps the
      time and steps every button. */
  function Update(s: State, now: u32, read: u8 -> Level): State
  {
    if Accepts(s, now) then s.(lastDebounce := now, buttons := Step(s.buttons, read)) else s
  }

  /** `resetCounters()`: every count set to zero. */
  function Reset(s: State): State
  {
    s.(buttons := seq(|s.buttons|, i requires 0 <= i < |s.buttons| => s.buttons[i].(pressCount := 0)))
  }

  /** A single step changes the count exactly on a rising edge, by one
      (modulo 2^32); a release is never counted; the pin and the name stay. */
  lemma StepButtonEdge(b: Button, level: Level)
    ensures StepButton(b, level).pin == b.pin && StepButton(b, level).name == b.name
    ensures StepButton(b, level).pressed == StepButton(b, level).previousState == (level == Low)
    ensures StepButton(b, level).pressCount != b.pressCount <==> (level == Low && !b.previousState)
    ensures level == Low && !b.previousState ==>
      StepButton(b, level).pressCount as int == (b.pressCount as int + 1) % TWO_TO_THE_32
    ensures level == High ==> StepButton(b, level).pressCount == b.pressCount
  {
  }

  /** Both mutating operations keep the table invariant. */
  lemma OperationsKeepConfigured(s: State, now: u32, read: u8 -> Level)
    requires Configured(s.buttons)
    ensures Configured(Update(s, now, read).buttons)
    ensures Configured(Reset(s).buttons)
    ensures Update(s, now, read).debounceTime == Reset(s).debounceTime == s.debounceTime
  {
  }

  /** Stepping twice with the same levels is stepping once: after the first
      step no button has a rising edge left. */
  lemma {:induction false} StepIdempotent(bs: seq<Button>, read: u8 -> Level)
    ensures Step(Step(bs, read), read) == Step(bs, read)
  {
    var once := Step(bs, read);
    forall i | 0 <= i < |bs|
      ensures Step(once, read)[i] == once[i]
    {
      StepButtonEdge(bs[i], read(bs[i].pin));
      assert !RisingEdge(once[i], read(once[i].pin));
    }
  }

  /** A poll whose time lies within the debounce window of the last
      accepted one changes nothing. */
  lemma {:induction false} UpdateWithinWindow(s: State, now: u32, read: u8 -> Level, later: u32, read2: u8 -> Level)
    requires Accepts(s, now)
    requires Elapsed(later, now) <= s.debounceTime
    ensures Update(Update(s, now, read), later, read2) == Update(s, now, read)
  {
  }

  /** Two calls of `update()` at the same instant act as one, whether the
      first was accepted or not. */
  lemma {:induction false} UpdateIdempotent(s: State, now: u32, read: u8 -> Level, read2: u8 -> Level)
    ensures Update(Update(s, now, read), now, read2) == Update(s, now, read)
  {
  }

  /** With a zero interval a poll is accepted exactly when the clock has
      moved since the last accepted one: two polls in the same millisecond
      still count as one. */
  lemma ZeroDebounceAcceptsAnyTick(s: State, now: u32)
    requires s.debounceTime == 0
    ensures Accepts(s, now) <==> now != s.lastDebounce
  {
  }

  /** The gate measures the true elapsed time across a wrap of the 32-bit
      millisecond clock. */
  lemma {:induction false} GateAcrossWrap(s: State, delta: nat)
    requires delta < TWO_TO_THE_32
    ensures var now := ((s.lastDebounce as int + delta) % TWO_TO_THE_32) as u32;
      Accepts(s, now) <==> delta > s.debounceTime as int
  {
  }

  // ---------------------------------------------------------------------
  // Lookup by pin

  /** The first slot whose pin matches, or None when no slot does. */
  function FindPin(bs: seq<Button>, pin: u8): (r: Option<nat>)
    ensures r.None? <==> forall j :: 0 <= j < |bs| ==> bs[j].pin != pin
    ensures r.Some? ==> r.value < |bs| && bs[r.value].pin == pin
    ensures r.Some? ==> forall j :: 0 <= j < r.value ==> bs[j].pin != pin
  {
    if bs == [] then None
    else if bs[0].pin == pin then Some(0)
    else
      match FindPin(bs[1..], pin)
      case None => None
      case Some(k) => Some(k + 1)
  }

  function PressedOf(bs: seq<Button>, pin: u8): bool
  {
    match FindPin(bs, pin)
    case Some(k) => bs[k].pressed
    case None => false
  }

  function PreviousOf(bs: seq<Button>, pin: u8): bool
  {
    match FindPin(bs, pin)
    case Some(k) => bs[k].previousState
    case None => false
  }

  function PressCountOf(bs: seq<Button>, pin: u8): u32
  {
    match FindPin(bs, pin)
    case Some(k) => bs[k].pressCount
    case None => 0
  }

  function NameOf(bs: seq<Button>, pin: u8): string
  {
    match FindPin(bs, pin)
    case Some(k) => bs[k].name
    case None => UNKNOWN_NAME
  }

  /** In a configured table every configured pin is found at its own slot. */
  lemma {:induction false} FindConfiguredPin(bs: seq<Button>, i: nat)
    requires Configured(bs)
    requires i < TOTAL_BUTTONS
    ensures FindPin(bs, PINS[i]) == Some(i)
  {
  }

  /** A pin no slot carries gets the sentinels: false, false, 0, "UNKNOWN". */
  lemma UnknownPinSentinels(bs: seq<Button>, pin: u8)
    requires forall j :: 0 <= j < |bs| ==> bs[j].pin != pin
    ensures !PressedOf(bs, pin) && !PreviousOf(bs, pin)
    ensures PressCountOf(bs, pin) == 0 && NameOf(bs, pin) == UNKNOWN_NAME
  {
  }

  /** With the table invariant, `isPressed` and `wasPressed` always agree. */
  lemma PressedAgreesWithPrevious(bs: seq<Button>, pin: u8)
    requires Configured(bs)
    ensures PressedOf(bs, pin) == PreviousOf(bs, pin)
  {
  }

  /** Right after construction every pin, configured or not, reads as
      released with a zero count; configured pins keep their names. */
  lemma {:induction false} InitialQueries(pin: u8)
    ensures !PressedOf(InitialButtons(), pin) && !PreviousOf(InitialButtons(), pin)
    ensures PressCountOf(InitialButtons(), pin) == 0
    ensures forall i :: 0 <= i < TOTAL_BUTTONS ==> NameOf(InitialButtons(), PINS[i]) == NAMES[i]
  {
    InitialConfigured();
    forall i | 0 <= i < TOTAL_BUTTONS
      ensures NameOf(InitialButtons(), PINS[i]) == NAMES[i]
    {
      FindConfiguredPin(InitialButtons(), i);
    }
  }

  // ---------------------------------------------------------------------
  // Totals

  /** The exact (unbounded) sum of all counts. */
  function SumCounts(bs: seq<Button>): nat
  {
    if bs == [] then 0 else SumCounts(bs[..|bs| - 1]) + bs[|bs| - 1].pressCount as nat
  }

  /** The exact sum of the counts that `getPressCount` reports for each pin
      of a list. */
  function SumOverPins(bs: seq<Button>, pins: seq<u8>): nat
  {
    if pins == [] then 0 else SumOverPins(bs, pins[..|pins| - 1]) + PressCountOf(bs, pins[|pins| - 1]) as nat
  }

  /** Summing the table slot by slot equals summing `getPressCount` over the
      configured pins. */
  lemma {:induction false} SumOverConfiguredPins(bs: seq<Button>)
    requires Configured(bs)
    ensures SumOverPins(bs, PINS) == SumCounts(bs)
  {
    SumOverPinsPrefix(bs, TOTAL_BUTTONS);
    assert PINS[..TOTAL_BUTTONS] == PINS;
    assert bs[..TOTAL_BUTTONS] == bs;
  }

  lemma {:induction false} SumOverPinsPrefix(bs: seq<Button>, k: nat)
    requires Configured(bs)
    requires k <= TOTAL_BUTTONS
    ensures SumOverPins(bs, PINS[..k]) == SumCounts(bs[..k])
  {
    if k > 0 {
      SumOverPinsPrefix(bs, k - 1);
      assert PINS[..k][..k - 1] == PINS[..k - 1];
      assert bs[..k][..k - 1] == bs[..k - 1];
      FindConfiguredPin(bs, k - 1);
    }
  }

  /** After a reset the counts sum to zero and nothing else has changed. */
  lemma {:induction false} ResetClearsTotal(s: State)
    ensures SumCounts(Reset(s).buttons) == 0
    ensures |Reset(s).buttons| == |s.buttons|
    ensures forall i :: 0 <= i < |s.buttons| ==>
      Reset(s).buttons[i] == s.buttons[i].(pressCount := 0)
    ensures Reset(s).lastDebounce == s.lastDebounce && Reset(s).debounceTime == s.debounceTime
  {
    ZeroCountsSum(Reset(s).buttons);
  }

  /** A table in which only slot `i` holds a count of 1 sums to 1. */
  lemma {:induction false} OneCountedSlot(bs: seq<Button>, i: nat)
    requires i < |bs| && bs[i].pressCount == 1
    requires forall j :: 0 <= j < |bs| && j != i ==> bs[j].pressCount == 0
    ensures SumCounts(bs) == 1
  {
    var n := |bs|;
    if i == n - 1 {
      ZeroCountsSum(bs[..n - 1]);
    } else {
      OneCountedSlot(bs[..n - 1], i);
    }
  }

  lemma {:induction false} ZeroCountsSum(bs: seq<Button>)
    requires forall i :: 0 <= i < |bs| ==> bs[i].pressCount == 0
    ensures SumCounts(bs) == 0
  {
    if bs != [] {
      ZeroCountsSum(bs[..|bs| - 1]);
    }
  }

  /** The worked example: a manager built at t = 0 with the default interval
      ignores a poll at t = 0; a poll at t = 60 that reads only the UP pin Low
      presses UP once and nothing else. */
  lemma {:induction false} PressUpExample(idle: u8 -> Level, read: u8 -> Level)
    requires forall p :: read(p) == (if p == PIN_UP then Low else High)
    ensures var s0 := State(InitialButtons(), 0, DEFAULT_DEBOUNCE_MS);
      Update(s0, 0, idle) == s0
    ensures var s := Update(State(InitialButtons(), 0, DEFAULT_DEBOUNCE_MS), 60, read);
      Configured(s.buttons) && PressedOf(s.buttons, PIN_UP) && PressCountOf(s.buttons, PIN_UP) == 1 &&
      PressCountOf(s.buttons, PIN_MENU) == 0 && SumCounts(s.buttons) == 1
  {
    var s0 := State(InitialButtons(), 0, DEFAULT_DEBOUNCE_MS);
    var s := Update(s0, 60, read);
    InitialConfigured();
    OperationsKeepConfigured(s0, 60, read);
    assert Accepts(s0, 60);
    forall k | 0 <= k < TOTAL_BUTTONS
      ensures s.buttons[k].pressCount == if k == 2 then 1 else 0
      ensures s.buttons[k].pressed == (k == 2)
    {
      assert s.buttons[k] == StepButton(InitialButtons()[k], read(PINS[k]));
    }
    FindConfiguredPin(s.buttons, 2);
    FindConfiguredPin(s.buttons, 0);
    OneCountedSlot(s.buttons, 2);
  }

  // ---------------------------------------------------------------------
  // A button over a series of accepted polls

  /** One button after a series of accepted polls reading the given levels. */
  function Run(b: Button, levels: seq<Level>): Button
  {
    if levels == [] then b else StepButton(Run(b, levels[..|levels| - 1]), levels[|levels| - 1])
  }

  /** Position k of the series is a press: Low there, and released at the
      position before (or, for the first, in the starting state). */
  predicate IsPressAt(startDown: bool, levels: seq<Level>, k: nat)
    requires k < |levels|
  {
    levels[k] == Low && (if k == 0 then !startDown else levels[k - 1] == High)
  }

  /** The number of presses in a series, counted position by position. */
  function PressesIn(startDown: bool, levels: seq<Level>): nat
  {
    if levels == [] then 0
    else PressesIn(startDown, levels[..|levels| - 1]) + (if IsPressAt(startDown, levels, |levels| - 1) then 1 else 0)
  }

  /** Over any series of accepted polls a button's count grows by the number
      of presses in the series (modulo 2^32), and its state is the last
      level read. */
  lemma {:induction false} RunCountsPresses(b: Button, levels: seq<Level>)
    ensures Run(b, levels).pin == b.pin && Run(b, levels).name == b.name
    ensures Run(b, levels).previousState == (if levels == [] then b.previousState else levels[|levels| - 1] == Low)
    ensures levels != [] ==> Run(b, levels).pressed == (levels[|levels| - 1] == Low)
    ensures Run(b, levels).pressCount as int == (b.pressCount as int + PressesIn(b.previousState, levels)) % TWO_TO_THE_32
  {
    if levels != [] {
      var n := |levels|;
      var init := levels[..n - 1];
      RunCountsPresses(b, init);
      var before := Run(b, init);
      assert forall k :: 0 <= k < n - 1 ==> init[k] == levels[k];
      assert PressesIn(b.previousState, init) + (if IsPressAt(b.previousState, levels, n - 1) then 1 else 0)
          == PressesIn(b.previousState, levels);
      if IsPressAt(b.previousState, levels, n - 1) {
        assert RisingEdge(before, levels[n - 1]);
        ModAddLeft(b.pressCount as int + PressesIn(b.previousState, init), 1);
      } else {
        assert !RisingEdge(before, levels[n - 1]);
      }
    }
  }

  /** A series of Low readings holds one press if the button started
      released and none if it started down. */
  lemma {:induction false} HeldPresses(startDown: bool, levels: seq<Level>)
    requires levels != []
    requires forall k :: 0 <= k < |levels| ==> levels[k] == Low
    ensures PressesIn(startDown, levels) == if startDown then 0 else 1
  {
    var n := |levels|;
    if n > 1 {
      var init := levels[..n - 1];
      HeldPresses(startDown, init);
      assert !IsPressAt(startDown, levels, n - 1);
    }
  }

  /** A series of High readings holds no press. */
  lemma {:induction false} ReleasedPresses(startDown: bool, levels: seq<Level>)
    requires forall k :: 0 <= k < |levels| ==> levels[k] == High
    ensures PressesIn(startDown, levels) == 0
  {
    if levels != [] {
      ReleasedPresses(startDown, levels[..|levels| - 1]);
    }
  }

  /** A button held down over k >= 1 accepted polls, starting released, is
      counted exactly once. */
  lemma {:induction false} HeldCountedOnce(b: Button, levels: seq<Level>)
    requires !b.previousState
    requires levels != []
    requires forall k :: 0 <= k < |levels| ==> levels[k] == Low
    ensures Run(b, levels).pressCount == Inc32(b.pressCount)
    ensures Run(b, levels).pressed
  {
    RunCountsPresses(b, levels);
    HeldPresses(false, levels);
  }

  /** Released readings never change a count, and leave the button released. */
  lemma {:induction false} ReleaseNeverCounts(b: Button, levels: seq<Level>)
    requires forall k :: 0 <= k < |levels| ==> levels[k] == High
    ensures Run(b, levels).pressCount == b.pressCount
    ensures levels != [] ==> !Run(b, levels).pressed
  {
    RunCountsPresses(b, levels);
    ReleasedPresses(b.previousState, levels);
  }

  // ---------------------------------------------------------------------
  // The manager over a series of polls

  /** The state after a series of `update()` calls. */
  function UpdateAll(s: State, polls: seq<Poll>): (r: State)
    ensures |r.buttons| == |s.buttons| && r.debounceTime == s.debounceTime
  {
    if polls == [] then s
    else
      var p := polls[|polls| - 1];
      Update(UpdateAll(s, polls[..|polls| - 1]), p.now, p.read)
  }

  /** Every poll of the series passes the debounce gate. */
  ghost predicate AllAccepted(s: State, polls: seq<Poll>)
  {
    polls == [] ||
    (AllAccepted(s, polls[..|polls| - 1]) && Accepts(UpdateAll(s, polls[..|polls| - 1]), polls[|polls| - 1].now))
  }

  /** The levels a series of polls reads on one pin. */
  function LevelsAt(polls: seq<Poll>, pin: u8): (levels: seq<Level>)
    ensures |levels| == |polls|
    ensures forall k :: 0 <= k < |polls| ==> levels[k] == polls[k].read(pin)
  {
    if polls == [] then [] else LevelsAt(polls[..|polls| - 1], pin) + [polls[|polls| - 1].read(pin)]
  }

  /** Over accepted polls each slot evolves on its own, as `Run` on the
      levels read on its pin: buttons do not interact. */
  lemma {:induction false} AcceptedPollsPerButton(s: State, polls: seq<Poll>, i: nat)
    requires AllAccepted(s, polls)
    requires i < |s.buttons|
    ensures |UpdateAll(s, polls).buttons| == |s.buttons|
    ensures UpdateAll(s, polls).buttons[i] == Run(s.buttons[i], LevelsAt(polls, s.buttons[i].pin))
  {
    if polls != [] {
      var n := |polls|;
      var init := polls[..n - 1];
      AcceptedPollsPerButton(s, init, i);
      var levels := LevelsAt(polls, s.buttons[i].pin);
      assert LevelsAt(init, s.buttons[i].pin) == levels[..n - 1];
      RunCountsPresses(s.buttons[i], levels[..n - 1]);
    }
  }

  /** A button held down across a series of accepted polls, starting
      released, is counted exactly once by the manager. */
  lemma {:induction false} ManagerCountsHeldButtonOnce(s: State, polls: seq<Poll>, i: nat)
    requires AllAccepted(s, polls)
    requires i < |s.buttons| && !s.buttons[i].previousState
    requires polls != []
    requires forall k :: 0 <= k < |polls| ==> polls[k].read(s.buttons[i].pin) == Low
    ensures UpdateAll(s, polls).buttons[i].pressCount == Inc32(s.buttons[i].pressCount)
  {
    AcceptedPollsPerButton(s, polls, i);
    HeldCountedOnce(s.buttons[i], LevelsAt(polls, s.buttons[i].pin));
  }
}
