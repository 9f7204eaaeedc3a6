/**
 The interrupt-driven serial port (UARTRegisters and UARTRequest in
 kernel/device/pl011/uart.cpp).

 The transmit side is the sequence of characters that go out.  What the driver finds in
 the transmit queue is a parameter `slots`: the number of free slots at each look at the
 flag TXFF, which is set when there is none; what drains in between is up to the hardware.
 A character written to the data register without a free slot is lost.  The receive side is
 the sequence of characters that the data register will deliver; RXFE is set when it is
 empty.
 */
module Uart {
  import opened Buffers

  /** The registers: characters received and not read yet, characters sent, and the interrupt mask. */
  datatype Registers = Registers(received: seq<char>, sent: seq<char>, readIrq: bool, writeIrq: bool)

  datatype Request = Request(buf: seq<char>, size: nat, capacity: nat, isWrite: bool) {
    predicate Valid() {
      size <= capacity <= |buf|
    }

    predicate Finished() {
      size == capacity
    }
  }

  // ------------------------------------------------------------ what goes over the wire

  predicate IsBreak(ch: char) {
    ch == '\n' || ch == '\r'
  }

  /** What a write means to send for one character. */
  function Meant(ch: char): string {
    if ch == '\n' then "\n\r" else [ch]
  }

  /** What a write means to send for a buffer. */
  function Expand(text: string): string {
    if text == [] then [] else Expand(text[..|text| - 1]) + Meant(text[|text| - 1])
  }

  lemma {:induction false} ExpandConcat(a: string, b: string)
    ensures Expand(a + b) == Expand(a) + Expand(b)
  {
    if b == [] {
      assert a + b == a && Expand(a) + "" == Expand(a);
    } else {
      var c := b[..|b| - 1];
      assert (a + b)[..|a + b| - 1] == a + c;
      ExpandConcat(a, c);
      ConcatAssociates(Expand(a), Expand(c), Meant(b[|b| - 1]));
    }
  }

  /** A text without line feeds is meant to go out as it is. */
  lemma {:induction false} ExpandKeepsALine(text: string)
    requires '\n' !in text
    ensures Expand(text) == text
  {
    if text != [] {
      ExpandKeepsALine(text[..|text| - 1]);
    }
  }

  /** Every line feed is meant to be followed by a carriage return, and the lines stay as they are. */
  lemma ExpandAddsReturns(line: string, rest: string)
    requires '\n' !in line
    ensures Expand(line + "\n" + rest) == line + "\n\r" + Expand(rest)
  {
    ExpandKeepsALine(line);
    ExpandConcat(line, "\n");
    assert "\n"[..0] == "" && Expand("\n") == "\n\r";
    ExpandConcat(line + "\n", rest);
  }

  /** What goes out for one character that finds so many free slots: a carriage return needs a second one. */
  function Put(ch: char, free: nat): string {
    if ch == '\n' && free < 2 then "\n" else Meant(ch)
  }

  /** What goes out for a text whose characters find these numbers of free slots. */
  function Transmitted(text: string, slots: seq<nat>): string
    requires |text| <= |slots|
  {
    if text == [] then []
    else
      var n := |text| - 1;
      Transmitted(text[..n], slots) + Put(text[n], slots[n])
  }

  /** No line feed takes the last free slot. */
  predicate RoomForReturns(text: string, slots: seq<nat>)
    requires |text| <= |slots|
  {
    forall i | 0 <= i < |text| && text[i] == '\n' :: slots[i] >= 2
  }

  lemma {:induction false} TransmittedLength(text: string, slots: seq<nat>)
    requires |text| <= |slots|
    ensures |Transmitted(text, slots)| <= |Expand(text)|
    ensures |Transmitted(text, slots)| == |Expand(text)| <==> RoomForReturns(text, slots)
  {
    if text != [] {
      TransmittedLength(text[..|text| - 1], slots);
    }
  }

  /** A text goes out as meant exactly if no line feed takes the last free slot. */
  lemma {:induction false} TransmittedExactly(text: string, slots: seq<nat>)
    requires |text| <= |slots|
    ensures Transmitted(text, slots) == Expand(text) <==> RoomForReturns(text, slots)
  {
    TransmittedLength(text, slots);
    if text != [] && RoomForReturns(text, slots) {
      TransmittedExactly(text[..|text| - 1], slots);
    }
  }

  /** Each character goes out after those before it, a line feed with its return if it finds two slots. */
  lemma TransmittedNext(text: string, slots: seq<nat>, ch: char, free: nat)
    requires |text| == |slots|
    ensures Transmitted(text + [ch], slots + [free])
            == Transmitted(text, slots) + if ch != '\n' then [ch] else if free >= 2 then "\n\r" else "\n"
  {
    assert (text + [ch])[..|text|] == text;
    SlotsPrefix(text, slots, [free]);
  }

  /** How many looks at the flag find it clear, one after the other. */
  function Room(slots: seq<nat>): (n: nat)
    ensures n <= |slots|
    ensures forall i | 0 <= i < n :: slots[i] > 0
    ensures n < |slots| ==> slots[n] == 0
  {
    if slots == [] || slots[0] == 0 then 0 else 1 + Room(slots[1..])
  }

  /** How many characters come before the first break. */
  function LineLength(text: string): (n: nat)
    ensures n <= |text|
    ensures n < |text| ==> IsBreak(text[n])
    ensures forall i | 0 <= i < n :: !IsBreak(text[i])
  {
    if text == [] || IsBreak(text[0]) then 0 else 1 + LineLength(text[1..])
  }

  function Min(x: nat, y: nat): nat {
    if x < y then x else y
  }

  /** How many characters a read of at most `most` stores out of `text`. */
  function Stored(text: string, most: nat): (n: nat)
    ensures n <= most && n <= LineLength(text)
  {
    Min(LineLength(text), most)
  }

  /** A read of at most `most` characters ends at a break. */
  predicate Stops(text: string, most: nat) {
    Stored(text, most) < most && Stored(text, most) < |text|
  }

  /** How many characters it takes from the device: the break is taken too. */
  function Taken(text: string, most: nat): (n: nat)
    ensures n <= |text|
  {
    Stored(text, most) + if Stops(text, most) then 1 else 0
  }

  /** The local echo of a read. */
  function Echo(text: string, most: nat): string {
    text[..Stored(text, most)] + if Stops(text, most) then "\n" else ""
  }

  // ------------------------------------------------------------ one interrupt

  /** fill_from_uart for a write. */
  function FillWrite(q: Request, uart: Registers, slots: seq<nat>): (Request, Registers)
    requires q.Valid()
  {
    var n := Min(Room(slots), q.capacity - q.size);
    (q.(size := q.size + n), uart.(sent := uart.sent + Transmitted(q.buf[q.size..q.size + n], slots)))
  }

  /** fill_from_uart for a read. */
  function FillRead(q: Request, uart: Registers): (Request, Registers)
    requires q.Valid()
  {
    var most := q.capacity - q.size;
    var n := Stored(uart.received, most);
    (q.(buf := Overwrite(q.buf, q.size, uart.received[..n]),
        size := q.size + n,
        capacity := if Stops(uart.received, most) then q.size + n else q.capacity),
     uart.(received := uart.received[Taken(uart.received, most)..], sent := uart.sent + Echo(uart.received, most)))
  }

  function Fill(q: Request, uart: Registers, slots: seq<nat>): (r: (Request, Registers))
    requires q.Valid()
    ensures r.0.Valid() && |r.0.buf| == |q.buf| && r.0.isWrite == q.isWrite
  {
    if q.isWrite then FillWrite(q, uart, slots) else FillRead(q, uart)
  }

  /** Sets or clears the mask bit of the request's direction. */
  function SetIrq(uart: Registers, isWrite: bool, on: bool): Registers {
    if isWrite then uart.(writeIrq := on) else uart.(readIrq := on)
  }

  predicate IrqOn(uart: Registers, isWrite: bool) {
    if isWrite then uart.writeIrq else uart.readIrq
  }

  /** handle_irq: fills, and turns the interrupt off once the request is finished. */
  function Handled(q: Request, uart: Registers, slots: seq<nat>): (r: (Request, Registers))
    requires q.Valid()
    ensures r.0.Valid() && |r.0.buf| == |q.buf| && r.0.isWrite == q.isWrite
  {
    var (q', uart') := Fill(q, uart, slots);
    (q', if q'.Finished() then SetIrq(uart', q.isWrite, false) else uart')
  }

  /** An interrupt leaves itself enabled exactly while the request is unfinished, and the other one as it was. */
  lemma IrqOnWhileUnfinished(q: Request, uart: Registers, slots: seq<nat>)
    requires q.Valid()
    ensures var (q', uart') := Handled(q, uart, slots);
            && (uart'.writeIrq <==> uart.writeIrq && !(q.isWrite && q'.size == q'.capacity))
            && (uart'.readIrq <==> uart.readIrq && !(!q.isWrite && q'.size == q'.capacity))
  {
  }

  // ------------------------------------------------------------ any number of interrupts

  lemma {:induction false} TransmittedConcat(a: string, b: string, s: seq<nat>, t: seq<nat>)
    requires |a| == |s| && |b| <= |t|
    ensures Transmitted(a + b, s + t) == Transmitted(a, s) + Transmitted(b, t)
  {
    if b == [] {
      assert a + b == a;
      SlotsPrefix(a, s, t);
    } else {
      var c := b[..|b| - 1];
      assert (a + b)[..|a + b| - 1] == a + c;
      TransmittedConcat(a, c, s, t);
      ConcatAssociates(Transmitted(a, s), Transmitted(c, t), Put(b[|b| - 1], t[|b| - 1]));
    }
  }

  /** Only the slots found by the characters of the text count. */
  lemma {:induction false} SlotsPrefix(text: string, s: seq<nat>, t: seq<nat>)
    requires |text| <= |s|
    ensures Transmitted(text, s + t) == Transmitted(text, s)
  {
    if text != [] {
      SlotsPrefix(text[..|text| - 1], s, t);
    }
  }

  /** Where a write of `text` stands, when `base` had gone out before it and it has found `used` slots. */
  predicate WriteProgress(q: Request, uart: Registers, text: string, base: string, used: seq<nat>) {
    && q.Valid() && q.isWrite && q.buf == text && q.capacity == |text|
    && |used| == q.size && uart.sent == base + Transmitted(text[..q.size], used)
  }

  /** The slots that the characters of one filling find. */
  function Used(q: Request, slots: seq<nat>): seq<nat>
    requires q.Valid()
  {
    if q.isWrite then slots[..Min(Room(slots), q.capacity - q.size)] else []
  }

  /** Writing in pieces sends what the slots found by all of them let through. */
  lemma FillWriteProgress(q: Request, uart: Registers, slots: seq<nat>, text: string, base: string, used: seq<nat>)
    requires WriteProgress(q, uart, text, base, used)
    ensures var (q', uart') := FillWrite(q, uart, slots); WriteProgress(q', uart', text, base, used + Used(q, slots))
  {
    hide Transmitted, Room;
    var n := Min(Room(slots), q.capacity - q.size);
    var piece := text[q.size..q.size + n];
    TransmittedConcat(text[..q.size], piece, used, slots[..n]);
    assert slots == slots[..n] + slots[n..];
    SlotsPrefix(piece, slots[..n], slots[n..]);
    assert text[..q.size + n] == text[..q.size] + piece;
    ConcatAssociates(base, Transmitted(text[..q.size], used), Transmitted(piece, slots));
  }

  /** How many free slots a series of interrupts finds one after the other. */
  function TotalRoom(interrupts: seq<seq<nat>>): nat {
    if interrupts == [] then 0 else Room(interrupts[0]) + TotalRoom(interrupts[1..])
  }

  function HandledAll(q: Request, uart: Registers, interrupts: seq<seq<nat>>): (r: (Request, Registers))
    requires q.Valid()
    ensures r.0.Valid()
    decreases |interrupts|
  {
    if interrupts == [] then (q, uart)
    else var (q', uart') := Handled(q, uart, interrupts[0]); HandledAll(q', uart', interrupts[1..])
  }

  /**
   A series of interrupts sends as many characters as they find free slots, up to the end of
   the buffer, so they finish a write exactly if the slots are as many as the characters left.
   */
  lemma {:induction false} WriteFinishes(q: Request, uart: Registers, interrupts: seq<seq<nat>>)
    requires q.Valid() && q.isWrite
    ensures var (q', _) := HandledAll(q, uart, interrupts);
            && q'.size == Min(q.size + TotalRoom(interrupts), q.capacity)
            && (q'.size == q'.capacity <==> TotalRoom(interrupts) >= q.capacity - q.size)
    decreases |interrupts|
  {
    hide Room, Transmitted;
    if interrupts != [] {
      var (q', uart') := Handled(q, uart, interrupts[0]);
      WriteFinishes(q', uart', interrupts[1..]);
    }
  }

  /** A write does not depend on what comes in. */
  lemma WriteIgnoresInput(q: Request, uart: Registers, uart': Registers, text: string, base: string, used: seq<nat>)
    requires WriteProgress(q, uart, text, base, used) && uart'.sent == uart.sent
    ensures WriteProgress(q, uart', text, base, used)
  {
  }

  /**
   Where a read of at most `most` characters into a buffer that held `before` stands, after
   the characters `arrived` came in.
   */
  predicate ReadProgress(q: Request, uart: Registers, before: string, most: nat, arrived: string, base: string) {
    && q.Valid() && !q.isWrite && |before| == most
    && q.size == Stored(arrived, most)
    && q.capacity == (if Stops(arrived, most) then q.size else most)
    && q.buf == Overwrite(before, 0, arrived[..q.size])
    && uart.received == arrived[Taken(arrived, most)..]
    && uart.sent == base + Echo(arrived, most)
  }

  /** Nor does progress depend on the interrupt mask. */
  lemma MaskIsNoProgress(q: Request, uart: Registers, isWrite: bool, on: bool,
                         before: string, most: nat, arrived: string, base: string, used: seq<nat>)
    ensures WriteProgress(q, SetIrq(uart, isWrite, on), before, base, used)
       <==> WriteProgress(q, uart, before, base, used)
    ensures ReadProgress(q, SetIrq(uart, isWrite, on), before, most, arrived, base)
       <==> ReadProgress(q, uart, before, most, arrived, base)
  {
  }

  lemma {:induction false} LineLengthConcat(a: string, b: string)
    ensures LineLength(a + b) == if LineLength(a) < |a| then LineLength(a) else |a| + LineLength(b)
  {
    if a == [] {
      assert a + b == b;
    } else if !IsBreak(a[0]) {
      assert (a + b)[1..] == a[1..] + b;
      LineLengthConcat(a[1..], b);
    }
  }

  /** A read that has stored all that arrived goes on with what arrives next. */
  lemma ReadGoesOn(arrived: string, more: string, most: nat)
    requires Stored(arrived, most) == |arrived| < most
    ensures var room := most - |arrived|;
            && Stored(arrived + more, most) == |arrived| + Stored(more, room)
            && (Stops(arrived + more, most) <==> Stops(more, room))
            && Taken(arrived + more, most) == |arrived| + Taken(more, room)
            && Echo(arrived + more, most) == Echo(arrived, most) + Echo(more, room)
  {
    hide LineLength;
    LineLengthConcat(arrived, more);
    var n := Stored(more, most - |arrived|);
    assert (arrived + more)[..|arrived| + n] == arrived + more[..n];
    assert Echo(arrived, most) == arrived;
  }

  /** A read that has ended leaves what arrives next alone. */
  lemma ReadHasEnded(arrived: string, more: string, most: nat)
    requires Stored(arrived, most) == most || Stops(arrived, most)
    ensures Stored(arrived + more, most) == Stored(arrived, most)
    ensures Stops(arrived + more, most) <==> Stops(arrived, most)
    ensures Taken(arrived + more, most) == Taken(arrived, most)
    ensures Echo(arrived + more, most) == Echo(arrived, most)
  {
    LineLengthConcat(arrived, more);
    var n := Stored(arrived, most);
    assert (arrived + more)[..n] == arrived[..n];
  }

  /** Reading in pieces is the same as reading at once. */
  lemma FillReadProgress(q: Request, uart: Registers, more: string,
                         before: string, most: nat, arrived: string, base: string)
    requires ReadProgress(q, uart, before, most, arrived, base)
    ensures var (q', uart') := FillRead(q, uart.(received := uart.received + more));
            ReadProgress(q', uart', before, most, arrived + more, base)
  {
    hide LineLength, Echo, Taken, Stops, Overwrite, FillRead;
    if q.Finished() {
      NothingLeftToRead(q, uart.(received := uart.received + more));
      ReadHasEnded(arrived, more, most);
      assert (arrived + more)[..q.size] == arrived[..q.size];
      assert (arrived + more)[Taken(arrived, most)..] == arrived[Taken(arrived, most)..] + more;
    } else {
      AllStored(arrived, most);
      assert uart.received + more == more && arrived[..q.size] == arrived;
      OpenReadProgress(q, uart.(received := more), before, most, arrived, base);
    }
  }

  lemma OpenReadProgress(q: Request, uart: Registers, before: string, most: nat, arrived: string, base: string)
    requires q.Valid() && !q.isWrite && q.size == |arrived| == Stored(arrived, most) < q.capacity == most == |before|
    requires q.buf == Overwrite(before, 0, arrived) && uart.sent == base + Echo(arrived, most)
    ensures var (q', uart') := FillRead(q, uart);
            ReadProgress(q', uart', before, most, arrived + uart.received, base)
  {
    hide LineLength, Echo, Taken, Stops, Stored, Overwrite;
    var more := uart.received;
    ReadGoesOn(arrived, more, most);
    var n := Stored(more, most - |arrived|);
    assert (arrived + more)[..|arrived| + n] == arrived + more[..n];
    OverwriteTwice(before, arrived, more[..n]);
  }

  /** A read that has not looked at the device yet, which holds the characters `arrived`. */
  predicate ReadPending(q: Request, uart: Registers, before: string, arrived: string, base: string) {
    q == Request(before, 0, |before|, false) && uart.received == arrived && uart.sent == base
  }

  lemma ReadStarts(q: Request, uart: Registers, before: string, arrived: string, base: string)
    requires ReadPending(q, uart, before, arrived, base)
    ensures var (q', uart') := FillRead(q, uart);
            ReadProgress(q', uart', before, |before|, arrived, base)
  {
    assert Overwrite(before, 0, "") == before && "" + arrived == arrived && base + Echo("", |before|) == base;
    if q.Finished() {
      NothingLeftToRead(q, uart);
      assert base + Echo(arrived, 0) == base;
    } else {
      OpenReadProgress(q, uart, before, |before|, "", base);
    }
  }

  /** A finished read has stored a line, or all it had room for, or was given no room. */
  lemma FinishedRead(q: Request, uart: Registers, before: string, arrived: string, base: string)
    requires q.Valid() && q.Finished()
    requires ReadPending(q, uart, before, arrived, base) || ReadProgress(q, uart, before, |before|, arrived, base)
    ensures ReadProgress(q, uart, before, |before|, arrived, base)
    ensures q.size == |before| || (q.size < |arrived| && IsBreak(arrived[q.size]))
  {
    if ReadPending(q, uart, before, arrived, base) {
      ReadStarts(q, uart, before, arrived, base);
      NothingLeftToRead(q, uart);
    }
  }

  /** What a finished read has done, in the characters that arrived. */
  lemma LineStored(q: Request, uart: Registers, before: string, arrived: string, base: string)
    requires q.Finished() && ReadProgress(q, uart, before, |before|, arrived, base)
    ensures var n := q.size;
            && n <= |before| && n <= |arrived| && '\n' !in arrived[..n] && '\r' !in arrived[..n]
            && (n < |before| ==> n < |arrived| && (arrived[n] == '\n' || arrived[n] == '\r'))
            && q.buf == arrived[..n] + before[n..]
            && uart.received == arrived[if n < |before| then n + 1 else n..]
            && uart.sent == base + arrived[..n] + if n < |before| then "\n" else ""
  {
    var n := q.size;
    assert forall i | 0 <= i < n :: arrived[..n][i] == arrived[i] && !IsBreak(arrived[i]);
    ConcatAssociates(base, arrived[..n], if n < |before| then "\n" else "");
  }

  /** A read that has started is finished exactly when its buffer is full or a break has arrived. */
  lemma FinishedExactly(q: Request, uart: Registers, before: string, arrived: string, base: string)
    requires ReadProgress(q, uart, before, |before|, arrived, base)
    ensures q.size == q.capacity <==> |arrived| >= |before| || '\n' in arrived || '\r' in arrived
  {
    var n := LineLength(arrived);
    if n < |arrived| {
      assert arrived[n] in arrived;
    }
  }

  /** A read that neither is full nor met a break has stored all that arrived. */
  lemma AllStored(arrived: string, most: nat)
    requires Stored(arrived, most) < most && !Stops(arrived, most)
    ensures Stored(arrived, most) == |arrived| == Taken(arrived, most)
  {
  }

  /** A finished read takes nothing from the device. */
  lemma NothingLeftToRead(q: Request, uart: Registers)
    requires q.Valid() && q.Finished()
    ensures FillRead(q, uart) == (q, uart)
  {
    var text := uart.received;
    assert Overwrite(q.buf, q.size, text[..0]) == q.buf;
    assert text[0..] == text && Echo(text, 0) == "" && uart.sent + "" == uart.sent;
  }

  /** Sending the next character of a text. */
  lemma TransmitNext(text: string, n: nat, slots: seq<nat>)
    requires n < |text| && n < |slots|
    ensures Transmitted(text[..n + 1], slots) == Transmitted(text[..n], slots) + Put(text[n], slots[n])
  {
    assert text[..n + 1][..n] == text[..n];
  }

  lemma NothingSent(slots: seq<nat>)
    ensures Transmitted("", slots) == ""
  {
  }

  /** The one or two writes to the data register for a character. */
  lemma PutTwice(ch: char, free: nat, sent: string)
    requires free > 0
    ensures sent + Put(ch, free)
         == (sent + [ch]) + (if ch != '\n' then "" else if free - 1 > 0 then ['\r'] else "")
  {
  }

  /** An empty queue of n slots from which nothing drains: what characters without line feeds find. */
  function Filling(n: nat): seq<nat> {
    seq(n, i requires 0 <= i < n => n - i)
  }

  lemma {:induction false} RoomAll(slots: seq<nat>)
    requires forall i | 0 <= i < |slots| :: slots[i] > 0
    ensures Room(slots) == |slots|
  {
    if slots != [] {
      RoomAll(slots[1..]);
    }
  }

  /**
   The queue of the port holds 16 characters.  A line of 15 characters and a line feed,
   written into the empty queue by one interrupt, goes out without the carriage return.
   */
  lemma ReturnLost(line: string, uart: Registers)
    requires |line| == 15 && '\n' !in line
    ensures var text := line + "\n";
            var (q, uart') := FillWrite(Request(text, 0, 16, true), uart, Filling(16));
            q.Finished() && uart'.sent != uart.sent + Expand(text)
  {
    hide Transmitted, Expand, Room;
    var text, slots := line + "\n", Filling(16);
    RoomAll(slots);
    assert text[0..16] == text;
    assert text[15] == '\n' && slots[15] == 1;
    TransmittedExactly(text, slots);
    assert (uart.sent + Transmitted(text, slots))[|uart.sent|..] == Transmitted(text, slots);
    assert (uart.sent + Expand(text))[|uart.sent|..] == Expand(text);
  }

  ghost predicate NoBreak(text: string) {
    forall i | 0 <= i < |text| :: !IsBreak(text[i])
  }

  lemma NoBreakNext(text: string, n: nat)
    requires n < |text| && NoBreak(text[..n]) && text[n] != '\n' && text[n] != '\r'
    ensures NoBreak(text[..n + 1])
  {
  }

  /** What a read has done when it meets a break after n characters. */
  lemma ReadToBreak(text: string, most: nat, n: nat, base: string)
    requires n < |text| && n < most && NoBreak(text[..n]) && (text[n] == '\n' || text[n] == '\r')
    ensures Stored(text, most) == n && Stops(text, most) && Taken(text, most) == n + 1
    ensures base + Echo(text, most) == base + text[..n] + ['\n']
  {
    LineLengthIs(text, n);
  }

  /** What a read has done when it stops after n characters without a break. */
  lemma ReadWithoutBreak(text: string, most: nat, n: nat, base: string)
    requires n <= |text| && n <= most && NoBreak(text[..n]) && (n == most || n == |text|)
    ensures Stored(text, most) == n && !Stops(text, most) && Taken(text, most) == n
    ensures base + Echo(text, most) == base + text[..n]
  {
    LineLengthAtLeast(text, n);
  }

  lemma LineLengthIs(text: string, n: nat)
    requires n < |text| && NoBreak(text[..n]) && IsBreak(text[n])
    ensures LineLength(text) == n
  {
    LineLengthAtLeast(text, n);
  }

  lemma LineLengthAtLeast(text: string, n: nat)
    requires n <= |text| && NoBreak(text[..n])
    ensures LineLength(text) >= n
  {
    forall i | 0 <= i < n ensures !IsBreak(text[i]) {
      assert text[..n][i] == text[i];
    }
  }

  // ------------------------------------------------------------ in place

  class UARTRegisters {
    var received: seq<char>
    var sent: seq<char>
    var readIrq: bool
    var writeIrq: bool

    ghost function View(): Registers
      reads this
    {
      Registers(received, sent, readIrq, writeIrq)
    }

    constructor ()
      ensures View() == Registers("", "", false, false)
    {
      received, sent, readIrq, writeIrq := "", "", false, false;
    }

    /** poll_put: waits for a free slot. */
    method PollPut(ch: char)
      modifies this`sent
      ensures sent == old(sent) + [ch]
    {
      sent := sent + [ch];
    }

    /** Writing to the data register while the transmit queue has so many free slots. */
    method WriteData(ch: char, free: nat)
      modifies this`sent
      ensures sent == old(sent) + if free > 0 then [ch] else ""
    {
      if free > 0 {
        sent := sent + [ch];
      }
    }

    method Get() returns (ch: char)
      requires received != []
      modifies this`received
      ensures ch == old(received)[0] && received == old(received)[1..]
    {
      ch := received[0];
      received := received[1..];
    }

    method TryRead(buf: array<char>, start: nat, bufsize: nat) returns (offset: nat, stoppedOnBreak: bool)
      requires start + bufsize <= buf.Length
      modifies this`received, this`sent, buf
      ensures var text := old(received);
              && offset == Stored(text, bufsize) && stoppedOnBreak == Stops(text, bufsize)
              && received == text[Taken(text, bufsize)..] && sent == old(sent) + Echo(text, bufsize)
              && buf[..] == Overwrite(old(buf[..]), start, text[..offset])
    {
      hide Overwrite, LineLength, Echo, Taken, Stops, Stored, IsBreak;
      ghost var text, before := received, sent;
      stoppedOnBreak := false;
      offset := 0;
      assert text[..0] == "";
      OverwriteNone(buf[..], start);
      while offset < bufsize && received != []
        invariant offset <= bufsize && offset <= |text| && NoBreak(text[..offset])
        invariant received == text[offset..] && sent == before + text[..offset]
        invariant buf[..] == Overwrite(old(buf[..]), start, text[..offset])
        invariant !stoppedOnBreak
      {
        var ch := Get();
        if ch == '\n' || ch == '\r' {
          PollPut('\n');
          stoppedOnBreak := true;
          ReadToBreak(text, bufsize, offset, before);
          break;
        }
        PollPut(ch);
        NoBreakNext(text, offset);
        OverwriteNext(old(buf[..]), start, text[..offset], ch);
        assert text[..offset] + [ch] == text[..offset + 1];
        buf[start + offset] := ch;
        offset := offset + 1;
      }
      if !stoppedOnBreak {
        ReadWithoutBreak(text, bufsize, offset, before);
      }
    }

    method TryWrite(buf: array<char>, start: nat, bufsize: nat, slots: seq<nat>) returns (offset: nat)
      requires start + bufsize <= buf.Length
      modifies this`sent
      ensures offset == Min(Room(slots), bufsize)
      ensures sent == old(sent) + Transmitted(buf[start..start + offset], slots)
    {
      hide Transmitted, Room, Put;
      ghost var text, before := buf[start..start + bufsize], sent;
      offset := 0;
      NothingSent(slots);
      while offset < bufsize && offset < |slots| && slots[offset] != 0
        invariant offset <= Min(Room(slots), bufsize)
        invariant sent == before + Transmitted(text[..offset], slots)
      {
        var ch, free := buf[start + offset], slots[offset];
        TransmitNext(text, offset, slots);
        ConcatAssociates(before, Transmitted(text[..offset], slots), Put(ch, free));
        PutTwice(ch, free, sent);
        offset := offset + 1;
        WriteData(ch, free);
        if ch == '\n' {
          WriteData('\r', free - 1);
        }
      }
      assert text[..offset] == buf[start..start + offset];
    }

    method EnableIrq(isWrite: bool, on: bool)
      modifies this`readIrq, this`writeIrq
      ensures View() == SetIrq(old(View()), isWrite, on)
    {
      if isWrite {
        writeIrq := on;
      } else {
        readIrq := on;
      }
    }
  }

  class UARTRequest {
    var buf: array<char>
    var size: nat
    var capacity: nat
    var isWrite: bool

    ghost function View(): Request
      reads this, buf
    {
      Request(buf[..], size, capacity, isWrite)
    }

    constructor (buf: array<char>, isWrite: bool)
      ensures View() == Request(buf[..], 0, buf.Length, isWrite) && this.buf == buf
    {
      this.buf, size, capacity, this.isWrite := buf, 0, buf.Length, isWrite;
    }

    predicate IsFinished()
      reads this
    {
      size == capacity
    }

    method FillFromUart(uart: UARTRegisters, slots: seq<nat>)
      requires View().Valid()
      modifies this`size, this`capacity, buf, uart`received, uart`sent
      ensures buf == old(buf) && (View(), uart.View()) == Fill(old(View()), old(uart.View()), slots)
    {
      var amountOriginallyLeft := capacity - size;
      if isWrite {
        var n := uart.TryWrite(buf, size, amountOriginallyLeft, slots);
        size := size + n;
      } else {
        var n, didStop := uart.TryRead(buf, size, amountOriginallyLeft);
        size := size + n;
        if didStop {
          capacity := size;
        }
      }
    }

    method HandleIrq(uart: UARTRegisters, slots: seq<nat>)
      requires View().Valid()
      modifies this`size, this`capacity, buf, uart
      ensures buf == old(buf) && (View(), uart.View()) == Handled(old(View()), old(uart.View()), slots)
    {
      FillFromUart(uart, slots);
      if size == capacity {
        uart.EnableIrq(isWrite, false);
      }
    }
  }
}
