/** Keyboard input: the UNIX `ReadKey` escape-sequence decoder and the
    `HandleButtons` fold of its results into movement deltas.

    `ReadKey` keeps one static variable, the escape state, across calls. It
    is modelled as a step function from that state and the outcome of one
    non-blocking one-byte read to the new state and a command.
 */
module Input {
  import opened Shapes

  newtype byte = b: int | 0 <= b < 256

  /** The values `ReadKey` returns: 0, DOWN (1) .. REDRAW (8). */
  datatype Command = NoKey | Down | Left | Right | Rotate | Quit | Pause | Test | Redraw

  /** The static `esc`: 0 at rest, 1 after ESC, 2 after ESC '['. */
  datatype Esc = Idle | SawEsc | SawBracket

  /** The outcome of `read(fileno(stdin), &c, 1)`. */
  datatype Read = NoByte | Byte(b: byte)

  datatype Decoded = Decoded(esc: Esc, cmd: Command)

  const ESC: byte := 0x1B

  /** The plain keys: vi-style movement, space to rotate, and the controls. */
  function OrdinaryKey(c: byte): (cmd: Command)
    ensures cmd != NoKey ==> KeyFor(cmd) == c
  {
    if c == 'q' as byte then Quit
    else if c == 'j' as byte then Down
    else if c == 'h' as byte then Left
    else if c == 'l' as byte then Right
    else if c == 'p' as byte then Pause
    else if c == 'z' as byte then Test
    else if c == ' ' as byte then Rotate
    else if c == 'r' as byte then Redraw
    else NoKey
  }

  /** The final byte of an arrow-key sequence: up, down, right, left. */
  function ArrowKey(c: byte): (cmd: Command)
    ensures cmd != NoKey ==> cmd in {Rotate, Down, Right, Left} && ArrowByte(cmd) == c
  {
    if c == 'A' as byte then Rotate
    else if c == 'B' as byte then Down
    else if c == 'C' as byte then Right
    else if c == 'D' as byte then Left
    else NoKey
  }

  /** One call of `ReadKey`. */
  function ReadKey(esc: Esc, input: Read): (r: Decoded)
    // nothing read: no command, state kept
    ensures input.NoByte? ==> r == Decoded(esc, NoKey)
    // a command is only ever returned at rest
    ensures r.cmd != NoKey ==> r.esc == Idle
    // a byte advances the sequence only if it is ESC at rest or '[' right after ESC
    ensures input.Byte? ==> (r.esc == SawEsc <==> esc == Idle && input.b == ESC)
    ensures input.Byte? ==> (r.esc == SawBracket <==> esc == SawEsc && input.b == '[' as byte)
    // any byte but ESC at rest is a plain key
    ensures esc == Idle && input.Byte? && input.b != ESC ==> r == Decoded(Idle, OrdinaryKey(input.b))
    // the byte after ESC '[' always ends the sequence and picks an arrow
    ensures esc == SawBracket && input.Byte? ==> r == Decoded(Idle, ArrowKey(input.b))
    // any byte but '[' after ESC abandons the sequence and counts as a plain key
    ensures esc == SawEsc && input.Byte? && input.b != '[' as byte ==>
      r == Decoded(Idle, OrdinaryKey(input.b))
  {
    match input
    case NoByte => Decoded(esc, NoKey)
    case Byte(c) =>
      match esc
      case Idle =>
        if c == ESC then Decoded(SawEsc, NoKey) else Decoded(Idle, OrdinaryKey(c))
      case SawEsc =>
        if c == '[' as byte then Decoded(SawBracket, NoKey) else Decoded(Idle, OrdinaryKey(c))
      case SawBracket =>
        Decoded(Idle, ArrowKey(c))
  }

  /** The plain key for each command. */
  function KeyFor(cmd: Command): byte
    requires cmd != NoKey
  {
    match cmd
    case Quit => 'q' as byte
    case Down => 'j' as byte
    case Left => 'h' as byte
    case Right => 'l' as byte
    case Pause => 'p' as byte
    case Test => 'z' as byte
    case Rotate => ' ' as byte
    case Redraw => 'r' as byte
  }

  /** Every command has exactly one plain key, and every other byte decodes
      to no command. */
  lemma OrdinaryKeyInverse(c: byte, cmd: Command)
    ensures cmd != NoKey ==> OrdinaryKey(KeyFor(cmd)) == cmd
    ensures OrdinaryKey(c) != NoKey ==> KeyFor(OrdinaryKey(c)) == c
  {
  }

  /** A key press as the terminal sends it. */
  datatype Keystroke = Plain(cmd: Command) | Arrow(cmd: Command)

  predicate ValidKeystroke(k: Keystroke) {
    match k
    case Plain(cmd) => cmd != NoKey
    case Arrow(cmd) => cmd in {Rotate, Down, Right, Left}
  }

  function ArrowByte(cmd: Command): byte
    requires cmd in {Rotate, Down, Right, Left}
  {
    match cmd
    case Rotate => 'A' as byte
    case Down => 'B' as byte
    case Right => 'C' as byte
    case Left => 'D' as byte
  }

  function KeystrokeBytes(k: Keystroke): seq<byte>
    requires ValidKeystroke(k)
  {
    match k
    case Plain(cmd) => [KeyFor(cmd)]
    case Arrow(cmd) => [ESC, '[' as byte, ArrowByte(cmd)]
  }

  function Encode(ks: seq<Keystroke>): seq<byte>
    requires forall i :: 0 <= i < |ks| ==> ValidKeystroke(ks[i])
  {
    if |ks| == 0 then [] else KeystrokeBytes(ks[0]) + Encode(ks[1..])
  }

  datatype Decoding = Decoding(esc: Esc, cmds: seq<Command>)

  /** `ReadKey` called once per byte of `bs`, collecting what each call returns. */
  function DecodeBytes(esc: Esc, bs: seq<byte>): Decoding
    decreases |bs|
  {
    if |bs| == 0 then Decoding(esc, [])
    else
      var d := ReadKey(esc, Byte(bs[0]));
      var rest := DecodeBytes(d.esc, bs[1..]);
      Decoding(rest.esc, [d.cmd] + rest.cmds)
  }

  function Commands(cs: seq<Command>): seq<Command> {
    if |cs| == 0 then [] else (if cs[0] == NoKey then [] else [cs[0]]) + Commands(cs[1..])
  }

  function KeystrokeCommands(ks: seq<Keystroke>): seq<Command> {
    if |ks| == 0 then [] else [ks[0].cmd] + KeystrokeCommands(ks[1..])
  }

  lemma {:induction false} DecodeBytesAppend(esc: Esc, bs: seq<byte>, cs: seq<byte>)
    ensures DecodeBytes(esc, bs + cs).esc == DecodeBytes(DecodeBytes(esc, bs).esc, cs).esc
    ensures DecodeBytes(esc, bs + cs).cmds == DecodeBytes(esc, bs).cmds + DecodeBytes(DecodeBytes(esc, bs).esc, cs).cmds
    decreases |bs|
  {
    if |bs| == 0 {
      assert bs + cs == cs;
    } else {
      assert (bs + cs)[0] == bs[0] && (bs + cs)[1..] == bs[1..] + cs;
      DecodeBytesAppend(ReadKey(esc, Byte(bs[0])).esc, bs[1..], cs);
    }
  }

  lemma {:induction false} CommandsAppend(cs: seq<Command>, ds: seq<Command>)
    ensures Commands(cs + ds) == Commands(cs) + Commands(ds)
    decreases |cs|
  {
    if |cs| == 0 {
      assert cs + ds == ds;
    } else {
      assert (cs + ds)[0] == cs[0] && (cs + ds)[1..] == cs[1..] + ds;
      CommandsAppend(cs[1..], ds);
    }
  }

  /** One key press decodes to its command and leaves the decoder at rest. */
  lemma KeystrokeDecodes(k: Keystroke)
    requires ValidKeystroke(k)
    ensures DecodeBytes(Idle, KeystrokeBytes(k)).esc == Idle
    ensures Commands(DecodeBytes(Idle, KeystrokeBytes(k)).cmds) == [k.cmd]
  {
    var bs := KeystrokeBytes(k);
    var d := DecodeBytes(Idle, bs);
    match k
    case Plain(cmd) =>
      OrdinaryKeyInverse(0, cmd);
      assert d.cmds == [cmd];
      assert Commands([cmd]) == [cmd] + Commands([]);
    case Arrow(cmd) =>
      assert bs[1..][1..] == [ArrowByte(cmd)];
      assert DecodeBytes(SawBracket, [ArrowByte(cmd)]) == Decoding(Idle, [cmd]);
      assert DecodeBytes(SawEsc, bs[1..]) == Decoding(Idle, [NoKey, cmd]);
      assert d.cmds == [NoKey, NoKey, cmd];
      assert d.cmds[1..] == [NoKey, cmd] && d.cmds[1..][1..] == [cmd];
      assert Commands([cmd]) == [cmd] + Commands([]);
  }

  /** Round trip: whatever keys are pressed, plain or arrow, decoding the
      bytes from rest yields exactly their commands and ends at rest. */
  lemma {:induction false} DecodeEncode(ks: seq<Keystroke>)
    requires forall i :: 0 <= i < |ks| ==> ValidKeystroke(ks[i])
    ensures DecodeBytes(Idle, Encode(ks)).esc == Idle
    ensures Commands(DecodeBytes(Idle, Encode(ks)).cmds) == KeystrokeCommands(ks)
    decreases |ks|
  {
    if |ks| > 0 {
      var head := KeystrokeBytes(ks[0]);
      DecodeBytesAppend(Idle, head, Encode(ks[1..]));
      DecodeEncode(ks[1..]);
      KeystrokeDecodes(ks[0]);
      CommandsAppend(DecodeBytes(Idle, head).cmds, DecodeBytes(Idle, Encode(ks[1..])).cmds);
    }
  }

  /** What `HandleButtons` accumulates: the deltas it adds to, the number of
      movement events, the test-mode flag it toggles and whether a full
      redraw was asked for. */
  datatype Buttons = Buttons(x: int, y: int, rotate: int, events: nat, test: bool, redrawAll: bool)

  datatype Polled = QuitGame | Polled(buttons: Buttons)

  /** The `while (!ReadKey()) { }` of PAUSE: skip empty reads and swallow
      the first command that arrives. */
  function AfterPause(keys: seq<Command>): (rest: seq<Command>)
    ensures |rest| < |keys| || keys == []
    // the first command after the empty reads is swallowed, and only it
    ensures forall j :: 0 <= j < |keys| && keys[j] != NoKey && (forall i :: 0 <= i < j ==> keys[i] == NoKey) ==>
      rest == keys[j + 1..]
    // a stream of empty reads only is used up
    ensures (forall i :: 0 <= i < |keys| ==> keys[i] == NoKey) ==> rest == []
  {
    if |keys| == 0 then []
    else if keys[0] == NoKey then AfterPause(keys[1..])
    else keys[1..]
  }

  /** The effect of one command other than QUIT and PAUSE on the accumulator. */
  function Step(k: Command, acc: Buttons): (r: Buttons)
    // the four movement keys are the events, each one unit of movement;
    // y and rotation only ever grow
    ensures r.events == acc.events + (if k in {Left, Right, Down, Rotate} then 1 else 0)
    ensures r.y >= acc.y && r.rotate >= acc.rotate
    ensures Abs(r.x - acc.x) + (r.y - acc.y) + (r.rotate - acc.rotate) == r.events - acc.events
    // TEST flips the test flag, REDRAW asks for a full repaint
    ensures r.test == (acc.test != (k == Test)) && r.redrawAll == (acc.redrawAll || k == Redraw)
  {
    match k
    case Left => acc.(x := acc.x - 1, events := acc.events + 1)
    case Right => acc.(x := acc.x + 1, events := acc.events + 1)
    case Down => acc.(y := acc.y + 1, events := acc.events + 1)
    case Rotate => acc.(rotate := acc.rotate + 1, events := acc.events + 1)
    case Test => acc.(test := !acc.test)
    case Redraw => acc.(redrawAll := true)
    case _ => acc
  }

  /** `HandleButtons` over the successive `ReadKey` results `keys`; the loop
      stops at the first empty read (or when the results run out). */
  function HandleButtons(keys: seq<Command>, acc: Buttons): (p: Polled)
    // vertical and rotation deltas only grow, and every unit of movement is an event
    ensures p.Polled? ==>
      && p.buttons.y >= acc.y && p.buttons.rotate >= acc.rotate
      && Abs(p.buttons.x - acc.x) + (p.buttons.y - acc.y) + (p.buttons.rotate - acc.rotate)
         <= p.buttons.events - acc.events
    decreases |keys|
  {
    if |keys| == 0 || keys[0] == NoKey then Polled(acc)
    else if keys[0] == Quit then QuitGame
    else if keys[0] == Pause then HandleButtons(AfterPause(keys[1..]), acc)
    else HandleButtons(keys[1..], Step(keys[0], acc))
  }

  /** The results the loop reads before its first empty read. */
  function Pending(keys: seq<Command>): (ps: seq<Command>)
    ensures forall i :: 0 <= i < |ps| ==> ps[i] != NoKey
  {
    if |keys| == 0 || keys[0] == NoKey then [] else [keys[0]] + Pending(keys[1..])
  }

  function Count(cs: seq<Command>, c: Command): nat {
    if |cs| == 0 then 0 else (if cs[0] == c then 1 else 0) + Count(cs[1..], c)
  }

  function Odd(n: nat): bool { n % 2 == 1 }

  lemma CountCons(k: Command, rest: seq<Command>, c: Command)
    ensures Count([k] + rest, c) == (if k == c then 1 else 0) + Count(rest, c)
  {
    assert ([k] + rest)[1..] == rest;
  }

  /** A QUIT among the pending commands, and no pause before it, ends the game. */
  lemma {:induction false} ButtonsQuit(keys: seq<Command>, acc: Buttons)
    requires Count(Pending(keys), Pause) == 0
    ensures Count(Pending(keys), Quit) > 0 <==> HandleButtons(keys, acc) == QuitGame
    decreases |keys|
  {
    if |keys| > 0 && keys[0] != NoKey {
      var rest := keys[1..];
      CountCons(keys[0], Pending(rest), Quit);
      CountCons(keys[0], Pending(rest), Pause);
      if keys[0] != Quit {
        ButtonsQuit(rest, Step(keys[0], acc));
      }
    }
  }

  /** The fold `HandleButtons` computes when no QUIT or PAUSE is pending,
      stated through counts: LEFT and RIGHT move x, DOWN moves y, ROTATE
      turns, exactly those four are events, TEST toggles and REDRAW sets. */
  function Tally(ps: seq<Command>, acc: Buttons): Buttons {
    Buttons(
      acc.x + Count(ps, Right) - Count(ps, Left),
      acc.y + Count(ps, Down),
      acc.rotate + Count(ps, Rotate),
      acc.events + Count(ps, Left) + Count(ps, Right) + Count(ps, Down) + Count(ps, Rotate),
      acc.test != Odd(Count(ps, Test)),
      acc.redrawAll || Count(ps, Redraw) > 0)
  }

  lemma TallyCons(k: Command, ps: seq<Command>, acc: Buttons)
    requires k !in {NoKey, Quit, Pause}
    ensures Tally([k] + ps, acc) == Tally(ps, Step(k, acc))
  {
    CountCons(k, ps, Left);
    CountCons(k, ps, Right);
    CountCons(k, ps, Down);
    CountCons(k, ps, Rotate);
    CountCons(k, ps, Test);
    CountCons(k, ps, Redraw);
  }

  /** Without a pause or quit among them, the pending commands fold to their counts. */
  lemma {:induction false} ButtonsCountKeys(keys: seq<Command>, acc: Buttons)
    requires Count(Pending(keys), Pause) == 0 && Count(Pending(keys), Quit) == 0
    ensures HandleButtons(keys, acc) == Polled(Tally(Pending(keys), acc))
    decreases |keys|
  {
    if |keys| > 0 && keys[0] != NoKey {
      var rest := keys[1..];
      var pr := Pending(rest);
      CountCons(keys[0], pr, Quit);
      CountCons(keys[0], pr, Pause);
      ButtonsCountKeys(rest, Step(keys[0], acc));
      TallyCons(keys[0], pr, acc);
    }
  }
}
