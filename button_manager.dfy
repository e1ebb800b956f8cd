/** The button manager itself: a fixed array of six button slots updated in
    place, the time of the last accepted poll and a constant debounce
    interval. The hardware clock and pin reads are parameters: `now` is the
    value of `millis()` and `read(pin)` the level `digitalRead(pin)` returns. */
module Manager {
  import opened Uint
  import opened ButtonConfig
  import opened ButtonLogic

  class ButtonManager {
    const buttons: array<Button>
    var lastDebounce: u32
    const debounceTime: u32
    /** The lines written to the serial port, one per detected press. */
    ghost var log: seq<string>

    ghost predicate Valid()
      reads this, buttons
    {
      buttons.Length == TOTAL_BUTTONS && Configured(buttons[..])
    }

    /** The manager's state as a value. */
    ghost function Model(): State
      reads this, buttons
    {
      State(buttons[..], lastDebounce, debounceTime)
    }

    /** Builds the table in configuration order, every button released with a
        zero count; `now` is the clock at construction. The debounce interval
        defaults to 50 ms. */
    constructor (now: u32, debounce: u32 := DEFAULT_DEBOUNCE_MS)
      ensures Valid() && fresh(buttons)
      ensures Model() == State(InitialButtons(), now, debounce)
      ensures log == []
    {
      debounceTime := debounce;
      lastDebounce := now;
      buttons := new Button[TOTAL_BUTTONS];
      log := [];
      new;
      InitializeButtons();
      InitialConfigured();
    }

    /** Fills every slot from the pin and name tables. */
    method InitializeButtons()
      requires buttons.Length == TOTAL_BUTTONS
      modifies buttons
      ensures buttons[..] == InitialButtons()
    {
      var pins := PINS;
      var i: nat := 0;
      while i < TOTAL_BUTTONS
        invariant i <= TOTAL_BUTTONS
        invariant forall j :: 0 <= j < i ==> buttons[j] == InitialButtons()[j]
      {
        buttons[i] := Button(pins[i], false, false, 0, NAMES[i]);
        i := i + 1;
      }
    }

    /** One poll: ignored unless more than `debounceTime` ms have elapsed
        since the last accepted poll; otherwise stamps `now` and processes
        every button. */
    method Update(now: u32, read: u8 -> Level)
      requires Valid()
      modifies this`lastDebounce, this`log, buttons
      ensures Valid()
      ensures Model() == ButtonLogic.Update(old(Model()), now, read)
      ensures log == old(log) + (if Accepts(old(Model()), now) then Events(old(buttons[..]), read) else [])
    {
      if Sub32(now, lastDebounce) > debounceTime {
        lastDebounce := now;
        ProcessButtons(read);
      }
      OperationsKeepConfigured(old(Model()), now, read);
    }

    /** The loop of an accepted poll: every slot in table order. */
    method ProcessButtons(read: u8 -> Level)
      requires buttons.Length == TOTAL_BUTTONS
      modifies this`log, buttons
      ensures buttons[..] == Step(old(buttons[..]), read)
      ensures log == old(log) + Events(old(buttons[..]), read)
    {
      ghost var before := buttons[..];
      var i: nat := 0;
      while i < TOTAL_BUTTONS
        invariant i <= TOTAL_BUTTONS
        invariant forall j :: 0 <= j < i ==> buttons[j] == StepButton(before[j], read(before[j].pin))
        invariant forall j :: i <= j < TOTAL_BUTTONS ==> buttons[j] == before[j]
        invariant log == old(log) + Events(before[..i], read)
      {
        ProcessButton(i, read);
        EventsExtend(before, i, read);
        i := i + 1;
      }
      assert before[..TOTAL_BUTTONS] == before;
      assert buttons[..] == Step(before, read);
    }

    /** The body of the polling loop for slot `i`: on a rising edge count it
        and log it, then record the new debounced state as both current and
        previous. */
    method ProcessButton(i: nat, read: u8 -> Level)
      requires i < buttons.Length
      modifies this`log, buttons
      ensures buttons[i] == StepButton(old(buttons[i]), read(old(buttons[i]).pin))
      ensures forall j :: 0 <= j < buttons.Length && j != i ==> buttons[j] == old(buttons[j])
      ensures log == old(log) + (if RisingEdge(old(buttons[i]), read(old(buttons[i]).pin))
                                 then [PressMessage(old(buttons[i]).name)] else [])
    {
      var b := buttons[i];
      var currentState := read(b.pin) == Low;
      if currentState && !b.previousState {
        b := b.(pressCount := Inc32(b.pressCount));
        log := log + [PressMessage(b.name)];
      }
      b := b.(pressed := currentState, previousState := currentState);
      buttons[i] := b;
    }

    /** The current debounced state of the first slot carrying `pin`, or
        false for an unknown pin. */
    method IsPressed(pin: u8) returns (r: bool)
      requires Valid()
      ensures r == PressedOf(buttons[..], pin)
      ensures (forall j :: 0 <= j < buttons.Length ==> buttons[j].pin != pin) ==> !r
    {
      var i: nat := 0;
      while i < TOTAL_BUTTONS
        invariant i <= TOTAL_BUTTONS
        invariant forall j :: 0 <= j < i ==> buttons[j].pin != pin
      {
        if buttons[i].pin == pin {
          return buttons[i].pressed;
        }
        i := i + 1;
      }
      return false;
    }

    /** The state at the previous accepted poll of the first slot carrying
        `pin`, or false for an unknown pin. */
    method WasPressed(pin: u8) returns (r: bool)
      requires Valid()
      ensures r == PreviousOf(buttons[..], pin)
      ensures (forall j :: 0 <= j < buttons.Length ==> buttons[j].pin != pin) ==> !r
    {
      var i: nat := 0;
      while i < TOTAL_BUTTONS
        invariant i <= TOTAL_BUTTONS
        invariant forall j :: 0 <= j < i ==> buttons[j].pin != pin
      {
        if buttons[i].pin == pin {
          return buttons[i].previousState;
        }
        i := i + 1;
      }
      return false;
    }

    /** The press count of the first slot carrying `pin`, or 0 for an
        unknown pin. */
    method GetPressCount(pin: u8) returns (r: u32)
      requires Valid()
      ensures r == PressCountOf(buttons[..], pin)
      ensures (forall j :: 0 <= j < buttons.Length ==> buttons[j].pin != pin) ==> r == 0
    {
      var i: nat := 0;
      while i < TOTAL_BUTTONS
        invariant i <= TOTAL_BUTTONS
        invariant forall j :: 0 <= j < i ==> buttons[j].pin != pin
      {
        if buttons[i].pin == pin {
          return buttons[i].pressCount;
        }
        i := i + 1;
      }
      return 0;
    }

    /** The sum of all press counts, accumulated in an `unsigned long`. */
    method GetTotalPressCount() returns (total: u32)
      requires Valid()
      ensures total as int == SumCounts(buttons[..]) % TWO_TO_THE_32
    {
      total := 0;
      var i: nat := 0;
      while i < TOTAL_BUTTONS
        invariant i <= TOTAL_BUTTONS
        invariant total as int == SumCounts(buttons[..i]) % TWO_TO_THE_32
      {
        assert buttons[..i + 1][..i] == buttons[..i];
        ModAddLeft(SumCounts(buttons[..i]), buttons[i].pressCount as int);
        total := Add32(total, buttons[i].pressCount);
        i := i + 1;
      }
      assert buttons[..TOTAL_BUTTONS] == buttons[..];
    }

    /** The name of the first slot carrying `pin`, or "UNKNOWN". */
    method GetButtonName(pin: u8) returns (r: string)
      requires Valid()
      ensures r == NameOf(buttons[..], pin)
      ensures (forall j :: 0 <= j < buttons.Length ==> buttons[j].pin != pin) ==> r == UNKNOWN_NAME
    {
      var i: nat := 0;
      while i < TOTAL_BUTTONS
        invariant i <= TOTAL_BUTTONS
        invariant forall j :: 0 <= j < i ==> buttons[j].pin != pin
      {
        if buttons[i].pin == pin {
          return buttons[i].name;
        }
        i := i + 1;
      }
      return UNKNOWN_NAME;
    }

    /** The number of managed buttons: the size of the table. */
    method GetButtonCount() returns (r: u8)
      requires Valid()
      ensures r as int == buttons.Length
    {
      return TOTAL_BUTTONS as u8;
    }

    /** The pin of slot `index`, or the sentinel 0 for an index past the
        table; no configured pin is 0, so the sentinel is unambiguous. */
    method GetButtonPin(index: u8) returns (r: u8)
      requires Valid()
      ensures (index as int) < buttons.Length ==> r == buttons[index].pin
      ensures (index as int) >= buttons.Length ==> r == 0
      ensures r != 0 <==> (index as int) < buttons.Length
    {
      if (index as int) < TOTAL_BUTTONS {
        TableWellFormed();
        return buttons[index].pin;
      }
      return 0;
    }

    /** Sets every press count to 0; states, pins, names and the time stamp
        are untouched. */
    method ResetCounters()
      requires Valid()
      modifies buttons
      ensures Valid()
      ensures Model() == Reset(old(Model()))
    {
      var i: nat := 0;
      while i < TOTAL_BUTTONS
        invariant i <= TOTAL_BUTTONS
        invariant forall j :: 0 <= j < i ==> buttons[j] == old(buttons[j]).(pressCount := 0)
        invariant forall j :: i <= j < TOTAL_BUTTONS ==> buttons[j] == old(buttons[j])
      {
        buttons[i] := buttons[i].(pressCount := 0);
        i := i + 1;
      }
      OperationsKeepConfigured(old(Model()), 0, _ => High);
    }
  }

  /** A manager built at t = 0 with the default interval, polled at t = 0
      with every pin High (ignored: inside the window) and at t = 60 with
      only the UP pin Low, reports UP pressed once and nothing else. */
  method PressUpScenario() returns (upPressed: bool, upCount: u32, menuCount: u32, total: u32)
    ensures upPressed && upCount == 1
    ensures menuCount == 0 && total == 1
  {
    var m := new ButtonManager(0);
    var idle := _ => High;
    var upOnly := p => if p == PIN_UP then Low else High;
    PressUpExample(idle, upOnly);
    m.Update(0, idle);
    m.Update(60, upOnly);
    upPressed := m.IsPressed(PIN_UP);
    upCount := m.GetPressCount(PIN_UP);
    menuCount := m.GetPressCount(PIN_MENU);
    total := m.GetTotalPressCount();
  }
}
