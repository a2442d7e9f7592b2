/**
 * The console colour wrappers (`Color.black` ... `Color.white`): each
 * encloses the message between the SGR sequence that selects a foreground
 * colour (parameters 30-37, section 8.3.117 of ECMA-48) and the SGR reset
 * sequence `ESC [ 0 m`.
 */
module Color {
  import opened Base
  import opened Strings

  datatype Colour = Black | Red | Green | Yellow | Blue | Magenta | Cyan | White

  const Esc: char := '\U{1B}'

  /** The SGR parameter of each colour */
  function Code(c: Colour): (n: nat)
    ensures 30 <= n <= 37
  {
    match c
    case Black => 30
    case Red => 31
    case Green => 32
    case Yellow => 33
    case Blue => 34
    case Magenta => 35
    case Cyan => 36
    case White => 37
  }

  /** The control sequence `ESC [ n m` */
  function Sgr(n: nat): string {
    [Esc] + "[" + NatToString(n) + "m"
  }

  const Reset: string := Sgr(0)

  /** `Color.<c>(message)`: the template string `\x1b[<code>m${message}\x1b[0m` */
  function Paint(c: Colour, message: string): string {
    Sgr(Code(c)) + message + Reset
  }

  /** The colour whose SGR parameter is `n`, if any */
  function ColourOf(n: nat): Option<Colour> {
    if n == 30 then Some(Black) else if n == 31 then Some(Red)
    else if n == 32 then Some(Green) else if n == 33 then Some(Yellow)
    else if n == 34 then Some(Blue) else if n == 35 then Some(Magenta)
    else if n == 36 then Some(Cyan) else if n == 37 then Some(White)
    else None
  }

  /** Undo a colour wrapper: read the colour from the prefix and strip both sequences. */
  function Unpaint(s: string): Option<(Colour, string)> {
    if |s| >= 9 && s[..3] == [Esc, '[', '3'] && '0' <= s[3] <= '7' && s[4] == 'm' && s[|s| - 4..] == Reset
    then Some((ColourOf(30 + (s[3] as int - '0' as int)).value, s[5..|s| - 4]))
    else None
  }

  /** The wrapper adds five characters in front and four behind, leaving the message untouched. */
  lemma PaintShape(c: Colour, message: string)
    ensures var r := Paint(c, message);
      |r| == |message| + 9 &&
      r[..5] == [Esc, '[', '3', DigitChar(Code(c) - 30), 'm'] &&
      r[5..|r| - 4] == message &&
      r[|r| - 4..] == [Esc, '[', '0', 'm']
  {
    assert NatToString(Code(c)) == [DigitChar(3), DigitChar(Code(c) - 30)];
    assert Reset == [Esc, '[', '0', 'm'];
  }

  /** Stripping the wrapper recovers the colour and the message. */
  lemma UnpaintPaint(c: Colour, message: string)
    ensures Unpaint(Paint(c, message)) == Some((c, message))
  {
    PaintShape(c, message);
  }

  /** Different colours, or different messages, give different outputs. */
  lemma PaintInjective(c1: Colour, m1: string, c2: Colour, m2: string)
    requires Paint(c1, m1) == Paint(c2, m2)
    ensures c1 == c2 && m1 == m2
  {
    UnpaintPaint(c1, m1);
    UnpaintPaint(c2, m2);
  }
}

/**
 * The repeat-collapsing loggers. Both `Logger` and the older `ColorLogger`
 * remember the last message and how often it has been repeated; a repeat is
 * printed with a recycling sign and its occurrence count, and the colour
 * plays no part in deciding what is a repeat.
 */
module Logging {
  import opened Base
  import opened Strings
  import opened Color

  /** `lastMessage` and `repeatCount` */
  datatype LogState = LogState(lastMessage: Option<string>, repeatCount: nat)

  const Initial := LogState(None, 0)

  /** The text between the message and the count of a repeat: " ♻️ x" */
  const Recycled: string := " \U{267B}\U{FE0F} x"

  /** The state after logging `message` */
  function Next(s: LogState, message: string): LogState {
    if s.lastMessage == Some(message) then LogState(s.lastMessage, s.repeatCount + 1)
    else LogState(Some(message), 0)
  }

  /** The text printed (before colouring) when `message` is logged in state `s` */
  function Shown(s: LogState, message: string): string {
    if s.lastMessage == Some(message) then message + Recycled + NatToString(s.repeatCount + 2)
    else message
  }

  /** The state after logging the same message `k` times */
  function Repeat(s: LogState, message: string, k: nat): LogState {
    if k == 0 then s else Next(Repeat(s, message, k - 1), message)
  }

  /**
   * After k >= 1 consecutive identical messages that follow a different one,
   * the count is k - 1, the first is printed as it is and the k-th carries the suffix `x<k>`.
   */
  lemma {:induction false} RepeatCount(s: LogState, message: string, k: nat)
    requires s.lastMessage != Some(message) && k >= 1
    ensures Repeat(s, message, k) == LogState(Some(message), k - 1)
    ensures k == 1 ==> Shown(Repeat(s, message, k - 1), message) == message
    ensures k >= 2 ==> Shown(Repeat(s, message, k - 1), message) == message + Recycled + NatToString(k)
  {
    if k > 1 {
      RepeatCount(s, message, k - 1);
    }
  }

  /**
   * Logging the same text twice makes the second a repeat whichever wrappers
   * (and so colours) were used: neither the state update nor the text depends on the colour.
   */
  lemma SecondIsRepeat(s: LogState, message: string)
    ensures Next(Next(s, message), message).lastMessage == Some(message)
    ensures Next(Next(s, message), message).repeatCount == Next(s, message).repeatCount + 1
    ensures Shown(Next(s, message), message) == message + Recycled + NatToString(Next(s, message).repeatCount + 2)
  {
  }

  /** A different message always resets the count, whatever came before. */
  lemma NewMessageResets(s: LogState, message: string)
    requires s.lastMessage != Some(message)
    ensures Next(s, message) == LogState(Some(message), 0)
    ensures Shown(s, message) == message
  {
  }

  /** `Logger` (static state, modelled as one object); `console` holds the lines printed */
  class Logger {
    var state: LogState
    var console: seq<string>

    constructor ()
      ensures state == Initial && console == []
    {
      state := Initial;
      console := [];
    }

    /** `logMessage(message, color)` */
    method LogMessage(message: string, colour: Colour)
      modifies this
      ensures state == Next(old(state), message)
      ensures console == old(console) + [Paint(colour, Shown(old(state), message))]
    {
      if state.lastMessage == Some(message) {
        state := state.(repeatCount := state.repeatCount + 1);
        console := console + [Paint(colour, message + Recycled + NatToString(state.repeatCount + 1))];
      } else {
        state := LogState(Some(message), 0);
        console := console + [Paint(colour, message)];
      }
    }

    method Success(message: string)
      modifies this
      ensures state == Next(old(state), message)
      ensures console == old(console) + [Paint(Green, Shown(old(state), message))]
    {
      LogMessage(message, Green);
    }

    method Error(message: string)
      modifies this
      ensures state == Next(old(state), message)
      ensures console == old(console) + [Paint(Red, Shown(old(state), message))]
    {
      LogMessage(message, Red);
    }

    method Info(message: string)
      modifies this
      ensures state == Next(old(state), message)
      ensures console == old(console) + [Paint(Blue, Shown(old(state), message))]
    {
      LogMessage(message, Blue);
    }

    method Delete(message: string)
      modifies this
      ensures state == Next(old(state), message)
      ensures console == old(console) + [Paint(Magenta, Shown(old(state), message))]
    {
      LogMessage(message, Magenta);
    }

    method ModuleLog(message: string)
      modifies this
      ensures state == Next(old(state), message)
      ensures console == old(console) + [Paint(Cyan, Shown(old(state), message))]
    {
      LogMessage(message, Cyan);
    }
  }

  /** The older `ColorLogger`: the same repeat state, and only the success, error, info and delete wrappers */
  class ColorLogger {
    var state: LogState
    var console: seq<string>

    constructor ()
      ensures state == Initial && console == []
    {
      state := Initial;
      console := [];
    }

    /** `logMessage(message, color)` */
    method LogMessage(message: string, colour: Colour)
      modifies this
      ensures state == Next(old(state), message)
      ensures console == old(console) + [Paint(colour, Shown(old(state), message))]
    {
      if state.lastMessage == Some(message) {
        state := state.(repeatCount := state.repeatCount + 1);
        console := console + [Paint(colour, message + Recycled + NatToString(state.repeatCount + 1))];
      } else {
        state := LogState(Some(message), 0);
        console := console + [Paint(colour, message)];
      }
    }

    method Success(message: string)
      modifies this
      ensures state == Next(old(state), message)
      ensures console == old(console) + [Paint(Green, Shown(old(state), message))]
    {
      LogMessage(message, Green);
    }

    method Error(message: string)
      modifies this
      ensures state == Next(old(state), message)
      ensures console == old(console) + [Paint(Red, Shown(old(state), message))]
    {
      LogMessage(message, Red);
    }

    method Info(message: string)
      modifies this
      ensures state == Next(old(state), message)
      ensures console == old(console) + [Paint(Blue, Shown(old(state), message))]
    {
      LogMessage(message, Blue);
    }

    method Delete(message: string)
      modifies this
      ensures state == Next(old(state), message)
      ensures console == old(console) + [Paint(Magenta, Shown(old(state), message))]
    {
      LogMessage(message, Magenta);
    }
  }

  /** The wrappers `ColorLogger` defines; `moduleLog` is not one of them. */
  const ColorLoggerWrappers: set<string> := {"success", "error", "info", "delete"}
}
