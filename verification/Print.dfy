/**
 Formatted printing (vfnprintf in pine/print.hpp and vsbufprintf in pine/print.cpp): the
 format string is read character by character, and what it produces is added to a buffer
 that may be too small.

 A variadic slot is a 32-bit word; `text` is the string it points to when it is used as a
 pointer.  On the 32-bit target `long` and `size_t` are as wide as `int`.
 */
module Print {
  import opened TwoMath
  import opened Buffers
  import opened CString

  datatype Slot = Slot(word: nat, text: string)

  type Args = nat -> Slot

  function SlotAt(args: Args, k: nat): Slot {
    args(k)
  }

  ghost predicate ValidArgs(args: Args) {
    forall k :: SlotAt(args, k).word < WORD
  }

  /** What one literal character or one format specifier produces. */
  datatype Piece = Literal(text: string) | Value(text: string)

  /** The pieces up to the end of the format, or up to a specifier that is not known. */
  datatype Script = Script(pieces: seq<Piece>, complete: bool)

  // ------------------------------------------------------------ formats

  /** A string view reads a terminator past its end. */
  function At(fmt: string, i: nat): char {
    if i < |fmt| then fmt[i] else CharOf(0)
  }

  /** A format specifier: its flag, its type, and where the type stands. */
  datatype Specifier = Specifier(alternative: bool, kind: char, position: nat)

  /** The specifier whose text starts at position i, after the percent sign. */
  function SpecifierAt(fmt: string, i: nat): Specifier {
    var alternative := At(fmt, i) == '#';
    var j := if alternative then i + 1 else i;
    var k := if At(fmt, j) == 'l' || At(fmt, j) == 'z' then j + 1 else j;
    Specifier(alternative, At(fmt, k), k)
  }

  predicate Known(kind: char) {
    kind in "s%cudxp"
  }

  function ToSigned(word: nat): int {
    if word < -INT_MIN then word else word - WORD
  }

  function Hex(word: nat): string {
    Digits(16, word, DIGITS16, false)
  }

  function Converted(kind: char, alternative: bool, slot: Slot): string {
    match kind
    case 's' => slot.text
    case '%' => "%"
    case 'c' => if CharOf(slot.word) == CharOf(0) then "" else [CharOf(slot.word)]
    case 'u' => Rendered(slot.word)
    case 'd' => Rendered(ToSigned(slot.word))
    case 'x' => (if alternative then "0x" else "") + Hex(slot.word)
    case _ => "0x" + Hex(slot.word)
  }

  /** The pieces of a format from position i on, when the next slot is the k-th. */
  function Parse(fmt: string, i: nat, args: Args, k: nat): Script
    requires i <= |fmt|
    decreases |fmt| - i
  {
    if i == |fmt| then Script([], true)
    else if fmt[i] != '%' then
      var rest := Parse(fmt, i + 1, args, k);
      rest.(pieces := [Literal([fmt[i]])] + rest.pieces)
    else
      var s := SpecifierAt(fmt, i + 1);
      if !Known(s.kind) then Script([], false)
      else
        var rest := Parse(fmt, s.position + 1, args, if s.kind == '%' then k else k + 1);
        rest.(pieces := [Value(Converted(s.kind, s.alternative, SlotAt(args, k)))] + rest.pieces)
  }

  /** The text of all pieces, as an unbounded buffer would hold it. */
  function Rendering(pieces: seq<Piece>): string {
    if pieces == [] then "" else Rendering(pieces[..|pieces| - 1]) + pieces[|pieces| - 1].text
  }

  // ------------------------------------------------------------ truncation

  function Truncated(text: string, limit: nat): (t: string)
    ensures |t| <= limit && t <= text
  {
    if |text| <= limit then text else text[..limit]
  }

  lemma {:induction false} RenderingConcat(a: seq<Piece>, b: seq<Piece>)
    ensures Rendering(a + b) == Rendering(a) + Rendering(b)
  {
    if b == [] {
      assert a + b == a;
    } else {
      var c, last := b[..|b| - 1], b[|b| - 1].text;
      assert (a + b)[..|a + b| - 1] == a + c;
      RenderingConcat(a, c);
      ConcatAssociates(Rendering(a), Rendering(c), last);
    }
  }

  /** Once the buffer is full, nothing changes any more. */
  lemma FullStaysFull(a: seq<Piece>, b: seq<Piece>, limit: nat)
    requires |Rendering(a)| >= limit
    ensures Truncated(Rendering(a + b), limit) == Truncated(Rendering(a), limit)
  {
    RenderingConcat(a, b);
  }

  /** Adding to the truncated text is the same as truncating the whole. */
  lemma TruncatedGrows(text: string, more: string, limit: nat)
    ensures var t := Truncated(text, limit);
            Truncated(text + more, limit) == t + more[..Fits(more, limit + 1 - |t|)]
  {
    var t := Truncated(text, limit);
    if |text| <= limit {
      var n := Fits(more, limit + 1 - |t|);
      assert (text + more)[..|text| + n] == text + more[..n];
    }
  }

  /** The buffer after the pieces: a prefix of their rendering and a terminator, if there were any. */
  function Printed(before: string, pieces: seq<Piece>): (b: string)
    requires before != ""
    ensures |b| == |before|
  {
    if pieces == [] then before
    else Overwrite(before, 0, Truncated(Rendering(pieces), |before| - 1) + [CharOf(0)])
  }

  /** All values fit, when `used` characters are taken already. */
  predicate ValuesFit(pieces: seq<Piece>, used: nat, limit: nat) {
    pieces == [] ||
    ((pieces[0].Value? ==> used + |pieces[0].text| <= limit)
     && ValuesFit(pieces[1..], if used + |pieces[0].text| <= limit then used + |pieces[0].text| else limit, limit))
  }

  /** Every value is printed whole exactly when the last one ends within the limit. */
  lemma {:induction false} ValuesFitExactly(pieces: seq<Piece>, used: nat, limit: nat)
    requires used <= limit
    ensures ValuesFit(pieces, used, limit)
       <==> forall i | 0 <= i < |pieces| && pieces[i].Value? ::
              pieces[i].text == "" || used + |Rendering(pieces[..i + 1])| <= limit
  {
    if pieces != [] {
      var p := pieces[0];
      var next := if used + |p.text| <= limit then used + |p.text| else limit;
      ValuesFitExactly(pieces[1..], next, limit);
      assert pieces[..1] == [p] && Rendering([p]) == p.text by {
        assert [p][..0] == [] && "" + p.text == p.text;
      }
      forall i | 0 <= i < |pieces| - 1
        ensures |Rendering(pieces[..i + 2])| == |p.text| + |Rendering(pieces[1..][..i + 1])|
        ensures pieces[1..][i] == pieces[i + 1]
        ensures |Rendering(pieces[1..][..i + 1])| >= |pieces[i + 1].text|
      {
        var rest := pieces[1..][..i + 1];
        assert pieces[..i + 2] == [p] + rest;
        RenderingConcat([p], rest);
        assert rest[|rest| - 1] == pieces[i + 1];
      }
    }
  }

  // ------------------------------------------------------------ in place

  /** Numbers are printed without terminators. */
  lemma {:induction false} NoTerminator(base: nat, num: nat, k: nat)
    requires base in {10, 16}
    ensures CharOf(0) !in Digits(base, num, k, false)
    decreases k
  {
    if k > 0 {
      NoTerminator(base, num / base, k - 1);
    }
  }

  /** The string that a buffer holds. */
  method ReadCString(chars: array<char>, ghost text: string) returns (s: string)
    requires CharOf(0) !in text && text + [CharOf(0)] <= chars[..]
    ensures s == text
  {
    assert chars[..][|text|] == (text + [CharOf(0)])[|text|] == CharOf(0);
    assert forall i | 0 <= i < |text| :: chars[i] == (text + [CharOf(0)])[i];
    var n := StrLen(chars);
    s := chars[..n];
  }

  lemma OverwrittenPrefix(buf: string, text: string)
    requires |text| <= |buf|
    ensures text <= Overwrite(buf, 0, text)
  {
  }

  method DecimalMessage(num: int, signed: bool) returns (message: string)
    requires InRange(num, signed)
    ensures message == Rendered(num)
  {
    var digits := new char[Characters10(signed) + 1](_ => CharOf(0));
    ghost var before := digits[..];
    ToStrBuf(digits, num, signed);
    OverwrittenPrefix(before, Rendered(num) + [CharOf(0)]);
    NoTerminator(10, if num >= 0 then num else -num, Log10(if num >= 0 then num else -num) + 1);
    message := ReadCString(digits, Rendered(num));
  }

  /** Hexadecimal digits in a buffer that starts with a prefix or not. */
  method HexMessage(word: nat, prefixed: bool) returns (message: string)
    requires word < WORD
    ensures message == (if prefixed then "0x" else "") + Hex(word)
  {
    var hex := new char[DIGITS16 + 3](_ => CharOf(0));
    var start := 0;
    if prefixed {
      hex[0], hex[1] := '0', 'x';
      start := 2;
    }
    ghost var before, prefix := hex[..], if prefixed then "0x" else "";
    assert before[..start] == prefix;
    ToStrBufHex(hex, start, word, false);
    NoTerminator(16, word, DIGITS16);
    ghost var text := Hex(word) + [CharOf(0)];
    assert prefix + Hex(word) + [CharOf(0)] == before[..start] + text;
    message := ReadCString(hex, prefix + Hex(word));
  }

  /** What one specifier adds. */
  method Convert(kind: char, alternative: bool, slot: Slot) returns (message: string)
    requires Known(kind) && slot.word < WORD
    ensures message == Converted(kind, alternative, slot)
  {
    match kind
    case 's' => message := slot.text;
    case '%' => message := "%";
    case 'c' => message := if CharOf(slot.word) == CharOf(0) then "" else [CharOf(slot.word)];
    case 'u' => message := DecimalMessage(slot.word, false);
    case 'd' => message := DecimalMessage(ToSigned(slot.word), true);
    case 'x' => message := HexMessage(slot.word, alternative);
    case _ => message := HexMessage(slot.word, true);
  }

  /** The buffer that vsbufprintf adds to, and where the next character goes. */
  class Sink {
    const buf: array<char>
    var pos: nat

    constructor (buf: array<char>)
      ensures this.buf == buf && pos == 0
    {
      this.buf, pos := buf, 0;
    }

    /** The buffer holds what is left of the pieces. */
    ghost predicate Holds(before: string, pieces: seq<Piece>)
      reads this, buf
    {
      && before != "" && |before| == buf.Length
      && buf[..] == Printed(before, pieces)
      && pos == |Truncated(Rendering(pieces), buf.Length - 1)|
    }

    /** Once a piece did not fit, the buffer holds what any further pieces would leave. */
    lemma StaysFull(before: string, pieces: seq<Piece>, more: seq<Piece>)
      requires Holds(before, pieces) && pos == buf.Length - 1 && pieces != []
      ensures Holds(before, pieces + more)
    {
      FullStaysFull(pieces, more, buf.Length - 1);
    }

    method TryAdd(message: string, ghost before: string, ghost pieces: seq<Piece>, ghost piece: Piece)
      returns (ok: bool)
      requires Holds(before, pieces) && piece.text == message
      modifies buf, this`pos
      ensures Holds(before, pieces + [piece])
      ensures ok <==> old(pos) + |message| < buf.Length
      ensures pos == if ok then old(pos) + |message| else buf.Length - 1
    {
      hide Overwrite, Printed, Rendering, Truncated;
      AddPiece(before, pieces, piece);
      var copied := StrBufCopy(buf, pos, message);
      pos := pos + copied;
      ok := copied == |message|;
    }
  }

  /** Writing a message over the terminator extends what is printed. */
  lemma AddPiece(before: string, pieces: seq<Piece>, piece: Piece)
    requires before != ""
    ensures var limit, m := |before| - 1, piece.text;
            var t := Truncated(Rendering(pieces), limit);
            var n := Fits(m, |before| - |t|);
            && Truncated(Rendering(pieces + [piece]), limit) == t + m[..n]
            && Printed(before, pieces + [piece]) == Overwrite(Printed(before, pieces), |t|, m[..n] + [CharOf(0)])
  {
    var limit, m := |before| - 1, piece.text;
    var t := Truncated(Rendering(pieces), limit);
    var n := Fits(m, |before| - |t|);
    assert (pieces + [piece])[..|pieces|] == pieces;
    TruncatedGrows(Rendering(pieces), m, limit);
    if pieces == [] {
      assert t == "" && t + m[..n] + [CharOf(0)] == m[..n] + [CharOf(0)];
    } else {
      OverwriteOver(before, t, CharOf(0), m[..n] + [CharOf(0)]);
      assert t + (m[..n] + [CharOf(0)]) == t + m[..n] + [CharOf(0)];
    }
  }

  lemma OverwriteOver(buf: string, text: string, end: char, more: string)
    requires |text| + |more| <= |buf| && more != ""
    ensures Overwrite(Overwrite(buf, 0, text + [end]), |text|, more) == Overwrite(buf, 0, text + more)
  {
  }

  /** The pieces of the script before those that are left. */
  ghost function Before(script: Script, rest: Script): seq<Piece> {
    if |rest.pieces| <= |script.pieces| then script.pieces[..|script.pieces| - |rest.pieces|] else []
  }

  /** `rest` is left of the script when `used` characters are taken. */
  ghost predicate Remains(script: Script, rest: Script, used: nat, limit: nat) {
    && script == Script(Before(script, rest) + rest.pieces, rest.complete)
    && used <= limit
    && (ValuesFit(script.pieces, 0, limit) <==> ValuesFit(rest.pieces, used, limit))
  }

  lemma RemainsNext(script: Script, rest: Script, used: nat, limit: nat, piece: Piece, next: Script)
    requires Remains(script, rest, used, limit)
    requires rest == Script([piece] + next.pieces, next.complete)
    ensures Before(script, next) == Before(script, rest) + [piece]
    ensures script.pieces == Before(script, next) + next.pieces
    ensures var fits := used + |piece.text| <= limit;
            if fits || piece.Literal? then
              Remains(script, next, if fits then used + |piece.text| else limit, limit)
            else
              !ValuesFit(script.pieces, 0, limit)
  {
    assert rest.pieces[1..] == next.pieces;
    assert Before(script, rest) + ([piece] + next.pieces) == Before(script, rest) + [piece] + next.pieces;
  }

  lemma ParseEnd(fmt: string, args: Args, k: nat)
    ensures Parse(fmt, |fmt|, args, k) == Script([], true)
  {
  }

  /** Parsing a literal character. */
  lemma ParseLiteral(fmt: string, i: nat, args: Args, k: nat)
    requires i < |fmt| && fmt[i] != '%'
    ensures var next := Parse(fmt, i + 1, args, k);
            Parse(fmt, i, args, k) == Script([Literal([fmt[i]])] + next.pieces, next.complete)
  {
  }

  /** Parsing a specifier. */
  lemma ParseSpecifier(fmt: string, i: nat, args: Args, k: nat, alternative: bool, kind: char, j: nat)
    requires i < |fmt| && fmt[i] == '%' && SpecifierAt(fmt, i + 1) == Specifier(alternative, kind, j)
    ensures !Known(kind) ==> Parse(fmt, i, args, k) == Script([], false)
    ensures Known(kind) ==> j < |fmt|
    ensures Known(kind) ==>
              var next := Parse(fmt, j + 1, args, if kind == '%' then k else k + 1);
              Parse(fmt, i, args, k)
              == Script([Value(Converted(kind, alternative, SlotAt(args, k)))] + next.pieces, next.complete)
  {
  }

  /** The flag and the modifier, which has no effect on 32 bits, and the type after them. */
  method ReadSpecifier(fmt: string, start: nat) returns (alternative: bool, kind: char, i: nat)
    ensures Specifier(alternative, kind, i) == SpecifierAt(fmt, start) && kind == At(fmt, i) && i >= start
  {
    i := start;
    alternative := At(fmt, i) == '#';
    if alternative {
      i := i + 1;
    }
    if At(fmt, i) == 'l' || At(fmt, i) == 'z' {
      i := i + 1;
    }
    kind := At(fmt, i);
  }

  /** The sink holds the script but for `rest`. */
  ghost predicate Underway(sink: Sink, before: string, script: Script, rest: Script)
    reads sink, sink.buf
  {
    sink.Holds(before, Before(script, rest)) && Remains(script, rest, sink.pos, sink.buf.Length - 1)
  }

  /** Everything that the script prints is printed. */
  ghost predicate Finished(sink: Sink, before: string, script: Script, done: bool)
    reads sink, sink.buf
  {
    && sink.Holds(before, script.pieces)
    && (done <==> script.complete && ValuesFit(script.pieces, 0, sink.buf.Length - 1))
  }

  lemma NothingLeft(sink: Sink, before: string, script: Script, complete: bool)
    requires Underway(sink, before, script, Script([], complete))
    ensures Finished(sink, before, script, complete)
  {
    assert Before(script, Script([], complete)) + [] == Before(script, Script([], complete));
  }

  /** Adds the next piece: a value that does not fit ends the printing. */
  method AddNext(sink: Sink, message: string, ghost before: string, ghost script: Script,
                 ghost piece: Piece, ghost next: Script)
    returns (ok: bool)
    requires Underway(sink, before, script, Script([piece] + next.pieces, next.complete))
    requires piece.text == message
    modifies sink.buf, sink`pos
    ensures ok || piece.Literal? ==> Underway(sink, before, script, next)
    ensures !ok && piece.Value? ==> Finished(sink, before, script, false)
  {
    hide *;
    UnderwayMeans(sink, before, script, Script([piece] + next.pieces, next.complete));
    RemainsNext(script, Script([piece] + next.pieces, next.complete), sink.pos, sink.buf.Length - 1, piece, next);
    ok := sink.TryAdd(message, before, Before(script, Script([piece] + next.pieces, next.complete)), piece);
    UnderwayMeans(sink, before, script, next);
    if !ok {
      sink.StaysFull(before, Before(script, next), next.pieces);
      FinishedEarly(sink, before, script);
    }
  }

  lemma UnderwayMeans(sink: Sink, before: string, script: Script, rest: Script)
    ensures Underway(sink, before, script, rest)
       <==> sink.Holds(before, Before(script, rest)) && sink.buf.Length > 0
            && Remains(script, rest, sink.pos, sink.buf.Length - 1)
  {
  }

  lemma FinishedEarly(sink: Sink, before: string, script: Script)
    requires sink.Holds(before, script.pieces) && sink.buf.Length > 0
    ensures !ValuesFit(script.pieces, 0, sink.buf.Length - 1) ==> Finished(sink, before, script, false)
  {
  }

  lemma UnderwayFromStart(sink: Sink, script: Script)
    requires sink.pos == 0 && sink.buf.Length > 0
    ensures Underway(sink, sink.buf[..], script, script)
  {
  }

  /** One specifier; it fails if it is not known or its value does not fit. */
  method AddValue(sink: Sink, fmt: string, i: nat, args: Args, k: nat, ghost before: string, ghost script: Script)
    returns (ok: bool, next: nat, k': nat)
    requires i < |fmt| && fmt[i] == '%' && ValidArgs(args)
    requires Underway(sink, before, script, Parse(fmt, i, args, k))
    modifies sink.buf, sink`pos
    ensures ok ==> i < next <= |fmt| && Underway(sink, before, script, Parse(fmt, next, args, k'))
    ensures !ok ==> Finished(sink, before, script, false)
  {
    hide *;
    var alternative, kind, j := ReadSpecifier(fmt, i + 1);
    ParseSpecifier(fmt, i, args, k, alternative, kind, j);
    if !Known(kind) {
      NothingLeft(sink, before, script, false);
      return false, i, k;
    }
    ValidSlot(args, k);
    var message := Convert(kind, alternative, SlotAt(args, k));
    next, k' := j + 1, if kind == '%' then k else k + 1;
    ok := AddNext(sink, message, before, script, Value(message), Parse(fmt, next, args, k'));
  }

  lemma ValidSlot(args: Args, k: nat)
    requires ValidArgs(args)
    ensures SlotAt(args, k).word < WORD
  {
  }

  /** One literal character, whether it fits or not. */
  method AddLiteral(sink: Sink, fmt: string, i: nat, ghost args: Args, ghost k: nat,
                    ghost before: string, ghost script: Script)
    requires i < |fmt| && fmt[i] != '%'
    requires Underway(sink, before, script, Parse(fmt, i, args, k))
    modifies sink.buf, sink`pos
    ensures Underway(sink, before, script, Parse(fmt, i + 1, args, k))
  {
    hide *;
    ParseLiteral(fmt, i, args, k);
    var _ := AddNext(sink, [fmt[i]], before, script, Literal([fmt[i]]), Parse(fmt, i + 1, args, k));
  }

  /** vfnprintf with a buffer as its sink. */
  method VFnPrintf(sink: Sink, fmt: string, args: Args) returns (done: bool)
    requires sink.buf.Length > 0 && sink.pos == 0 && ValidArgs(args) && CharOf(0) !in fmt
    modifies sink.buf, sink`pos
    ensures Finished(sink, old(sink.buf[..]), Parse(fmt, 0, args, 0), done)
  {
    hide *;
    ghost var before, script := sink.buf[..], Parse(fmt, 0, args, 0);
    UnderwayFromStart(sink, script);
    var i, k := 0, 0;
    while i < |fmt|
      invariant i <= |fmt| && Underway(sink, before, script, Parse(fmt, i, args, k))
      decreases |fmt| - i
    {
      if fmt[i] != '%' {
        AddLiteral(sink, fmt, i, args, k, before, script);
        i := i + 1;
      } else {
        var ok;
        ok, i, k := AddValue(sink, fmt, i, args, k, before, script);
        if !ok {
          return false;
        }
      }
    }
    ParseEnd(fmt, args, k);
    NothingLeft(sink, before, script, true);
    done := true;
  }

  lemma PrintedExactly(before: string, pieces: seq<Piece>)
    requires before != ""
    ensures var text := Rendering(pieces);
            var n := if |text| < |before| then |text| else |before| - 1;
            && |Truncated(text, |before| - 1)| == n
            && Printed(before, pieces) == if pieces == [] then before else text[..n] + [0 as char] + before[n + 1..]
  {
  }

  /**
   Prints into a buffer: as many characters of the rendering as leave room for a terminator,
   the terminator, and the rest of the buffer as it was.  A buffer of no size, and one for which
   the format gives no piece, is left alone.
   */
  method VSBufPrintf(buf: array<char>, fmt: string, args: Args) returns (pos: nat)
    requires ValidArgs(args) && CharOf(0) !in fmt
    modifies buf
    ensures buf.Length == 0 ==> pos == 0
    ensures buf.Length > 0 ==>
              var pieces := Parse(fmt, 0, args, 0).pieces;
              var text := Rendering(pieces);
              && pos == (if |text| < buf.Length then |text| else buf.Length - 1)
              && buf[..] == if pieces == [] then old(buf[..]) else text[..pos] + [0 as char] + old(buf[..])[pos + 1..]
  {
    hide Parse, Printed, Rendering, Truncated;
    pos := 0;
    if buf.Length == 0 {
      return;
    }
    PrintedExactly(buf[..], Parse(fmt, 0, args, 0).pieces);
    var sink := new Sink(buf);
    var _ := VFnPrintf(sink, fmt, args);
    pos := sink.pos;
  }

  // ------------------------------------------------------------ what a caller gets

  /**
   A format leaves a nonempty buffer with a terminator exactly if it starts with a
   character to copy or with a conversion that is known; the empty format and one that is
   given up at once leave it as it was.
   */
  lemma TerminatedExactly(before: string, fmt: string, args: Args)
    requires before != "" && CharOf(0) !in before
    ensures CharOf(0) in Printed(before, Parse(fmt, 0, args, 0).pieces)
       <==> fmt != "" && (fmt[0] != '%' || Known(SpecifierAt(fmt, 1).kind))
  {
    var pieces := Parse(fmt, 0, args, 0).pieces;
    if fmt != "" && fmt[0] == '%' {
      var s := SpecifierAt(fmt, 1);
      ParseSpecifier(fmt, 0, args, 0, s.alternative, s.kind, s.position);
    }
    if pieces != [] {
      var t := Truncated(Rendering(pieces), |before| - 1);
      assert Printed(before, pieces)[|t|] == CharOf(0);
    }
  }

  // ------------------------------------------------------ what a format prints

  lemma SpecifierShift(a: string, b: string, i: nat)
    ensures SpecifierAt(a + b, |a| + i) == var s := SpecifierAt(b, i); s.(position := |a| + s.position)
  {
  }

  /** What comes before position i of a format does not matter from there on. */
  lemma {:induction false} ParseShift(a: string, b: string, i: nat, args: Args, k: nat)
    requires i <= |b|
    ensures Parse(a + b, |a| + i, args, k) == Parse(b, i, args, k)
    decreases |b| - i
  {
    hide Converted, SpecifierAt;
    if i < |b| {
      if b[i] != '%' {
        ParseShift(a, b, i + 1, args, k);
      } else {
        var s := SpecifierAt(b, i + 1);
        SpecifierShift(a, b, i + 1);
        SpecifierEnds(b, i + 1);
        if Known(s.kind) {
          ParseShift(a, b, s.position + 1, args, if s.kind == '%' then k else k + 1);
        }
      }
    }
  }

  lemma SpecifierEnds(fmt: string, i: nat)
    ensures var s := SpecifierAt(fmt, i); i <= s.position && (Known(s.kind) ==> s.position < |fmt|)
  {
  }

  lemma RenderingFirst(piece: Piece, rest: seq<Piece>)
    ensures Rendering([piece] + rest) == piece.text + Rendering(rest)
  {
    RenderingConcat([piece], rest);
    assert [piece][..0] == [] && "" + piece.text == piece.text;
  }

  /** Characters other than percent signs are copied. */
  lemma {:induction false} LiteralsAreCopied(prefix: string, rest: string, args: Args, k: nat)
    requires '%' !in prefix
    ensures var p, q := Parse(prefix + rest, 0, args, k), Parse(rest, 0, args, k);
            p.complete == q.complete && Rendering(p.pieces) == prefix + Rendering(q.pieces)
  {
    hide Rendering, Parse;
    if prefix == "" {
      assert prefix + rest == rest;
    } else {
      var tail := prefix[1..];
      LiteralsAreCopied(tail, rest, args, k);
      assert prefix + rest == [prefix[0]] + (tail + rest);
      ParseLiteral(prefix + rest, 0, args, k);
      ParseShift([prefix[0]], tail + rest, 0, args, k);
      RenderingFirst(Literal([prefix[0]]), Parse(tail + rest, 0, args, k).pieces);
      ConcatAssociates([prefix[0]], tail, Rendering(Parse(rest, 0, args, k).pieces));
      assert [prefix[0]] + tail == prefix;
    }
  }

  /** What may stand between the percent sign and the type: the flag, and a length modifier. */
  predicate Modifiers(mods: string) {
    mods in {"", "#", "l", "z", "#l", "#z"}
  }

  lemma SpecifierParsed(mods: string, kind: char, rest: string)
    requires Modifiers(mods) && kind in "s%cudxp"
    ensures SpecifierAt("%" + mods + [kind] + rest, 1) == Specifier(mods != "" && mods[0] == '#', kind, |mods| + 1)
  {
    var fmt := "%" + mods + [kind] + rest;
    assert fmt[|mods| + 1] == kind;
    assert forall i | 0 <= i < |mods| :: fmt[i + 1] == mods[i];
  }

  /**
   A specifier with one of the letters s, %, c, u, d, x and p, after anything without percent
   signs and before anything at all, is replaced by what its slot converts to.  The rest of the
   format goes on with the next slot, or with the same one after a percent sign.
   */
  lemma SpecifierIsReplaced(prefix: string, mods: string, kind: char, rest: string, args: Args, k: nat)
    requires '%' !in prefix && Modifiers(mods) && kind in "s%cudxp"
    ensures var p := Parse(prefix + ("%" + mods + [kind] + rest), 0, args, k);
            var q := Parse(rest, 0, args, if kind == '%' then k else k + 1);
            var value := Converted(kind, mods != "" && mods[0] == '#', args(k));
            p.complete == q.complete && Rendering(p.pieces) == prefix + (value + Rendering(q.pieces))
  {
    hide Rendering, Parse, Converted, SpecifierAt;
    var spec, next := "%" + mods + [kind], if kind == '%' then k else k + 1;
    var fmt, alternative := spec + rest, mods != "" && mods[0] == '#';
    LiteralsAreCopied(prefix, fmt, args, k);
    SpecifierParsed(mods, kind, rest);
    ParseSpecifier(fmt, 0, args, k, alternative, kind, |mods| + 1);
    ParseShift(spec, rest, 0, args, next);
    RenderingFirst(Value(Converted(kind, alternative, args(k))), Parse(rest, 0, args, next).pieces);
  }

  /** What each type of specifier converts its slot to. */
  lemma ConvertedExactly(slot: Slot, alternative: bool)
    requires slot.word < WORD
    ensures Converted('s', alternative, slot) == slot.text
    ensures Converted('%', alternative, slot) == "%"
    ensures Converted('c', alternative, slot) == if slot.word % 256 == 0 then "" else [(slot.word % 256) as char]
    ensures IsDecimal(Converted('u', alternative, slot), slot.word)
    ensures var text := Converted('d', alternative, slot);
            if slot.word < 0x8000_0000 then IsDecimal(text, slot.word)
            else if slot.word == 0x8000_0000 then text == "-0"
            else text != "" && text[0] == '-' && IsDecimal(text[1..], WORD - slot.word)
    ensures IsHexadecimal(Hex(slot.word), slot.word)
    ensures Converted('x', alternative, slot) == if alternative then "0x" + Hex(slot.word) else Hex(slot.word)
    ensures Converted('p', alternative, slot) == "0x" + Hex(slot.word)
  {
    hide Rendered, IsDecimal, IsHexadecimal, Digits;
    RenderedExactly(slot.word);
    RenderedExactly(ToSigned(slot.word));
    HexadecimalExactly(slot.word);
    assert "" + Hex(slot.word) == Hex(slot.word);
  }

  /** The rest after a percent sign and modifiers does not go on with a modifier or one of the letters. */
  predicate NoSpecifier(mods: string, rest: string) {
    rest != "" ==>
      && rest[0] !in "s%cudxp"
      && (mods == "" || mods == "#" ==> rest[0] != 'l' && rest[0] != 'z') && (mods == "" ==> rest[0] != '#')
  }

  /** Any other specifier ends the printing: nothing of it or after it is printed. */
  lemma UnknownGivesUp(prefix: string, mods: string, rest: string, args: Args, k: nat)
    requires '%' !in prefix && Modifiers(mods) && NoSpecifier(mods, rest)
    ensures var p := Parse(prefix + ("%" + mods + rest), 0, args, k);
            !p.complete && Rendering(p.pieces) == prefix
  {
    hide Rendering, Parse;
    var fmt := "%" + mods + rest;
    LiteralsAreCopied(prefix, fmt, args, k);
    SpecifierUnknown(mods, rest);
    var s := SpecifierAt(fmt, 1);
    ParseSpecifier(fmt, 0, args, k, s.alternative, s.kind, s.position);
    NothingRendered();
    assert prefix + "" == prefix;
  }

  lemma NothingRendered()
    ensures Rendering([]) == ""
  {
  }

  lemma SpecifierUnknown(mods: string, rest: string)
    requires Modifiers(mods) && NoSpecifier(mods, rest)
    ensures !Known(SpecifierAt("%" + mods + rest, 1).kind)
  {
    var fmt := "%" + mods + rest;
    assert forall i | 0 <= i < |mods| :: fmt[i + 1] == mods[i];
    assert rest != "" ==> fmt[|mods| + 1] == rest[0];
  }

  /** The numeric conversions read back as the word that was given. */
  lemma ConversionsReadBack(slot: Slot)
    requires slot.word < WORD
    ensures ReadBack(Converted('u', false, slot)) == slot.word
    ensures ReadBack(Converted('d', false, slot)) == ToSigned(slot.word) <==> ToSigned(slot.word) != INT_MIN
    ensures ValueOf(16, Converted('x', false, slot)) == slot.word
    ensures Converted('x', true, slot) == Converted('p', false, slot) == "0x" + Converted('x', false, slot)
  {
    hide ReadBack, Rendered, ValueOf, Digits;
    RenderedRoundTrip(slot.word);
    RenderedRoundTrip(ToSigned(slot.word));
    HexRoundTrip(slot.word, false);
    assert "" + Hex(slot.word) == Hex(slot.word);
  }

  lemma ParseDecimalFormat(args: Args)
    ensures Rendering(Parse("%d", 0, args, 0).pieces) == Rendered(ToSigned(SlotAt(args, 0).word))
  {
    var value := Value(Rendered(ToSigned(SlotAt(args, 0).word)));
    assert Parse("%d", 0, args, 0).pieces == [value] by {
      ParseSpecifier("%d", 0, args, 0, false, 'd', 1);
      ParseEnd("%d", args, 1);
    }
    assert [value][..0] == [] && "" + value.text == value.text;
  }

  /** A number printed with %d into a buffer of at least 12 characters reads back, unless it is the least. */
  lemma DecimalFormatRoundTrip(args: Args, limit: nat)
    requires ValidArgs(args) && limit >= Characters10(true)
    ensures var num := ToSigned(SlotAt(args, 0).word);
            var text := Truncated(Rendering(Parse("%d", 0, args, 0).pieces), limit);
            ReadBack(text) == num <==> num != INT_MIN
  {
    hide Parse, Rendering, Rendered, ReadBack, SlotAt;
    var num := ToSigned(SlotAt(args, 0).word);
    ValidSlot(args, 0);
    ParseDecimalFormat(args);
    RenderedFits(num, true);
    RenderedRoundTrip(num);
  }
}
