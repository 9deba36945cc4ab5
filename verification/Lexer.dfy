/** The lexer handed to external scanners: a cursor over source bytes that moves one rune at
    a time or in bulk, remembers a token start and a marked end, and yields a token. */
module Lexer {
  import opened Numbers
  import opened Wrappers

  type Byte = b: nat | b < 256

  const NEWLINE: nat := 10
  const SPACE: nat := 32
  const RUNE_ERROR: nat := 0xFFFD

  function Word(n: nat): nat {
    n % WORD32
  }

  /** Rows and columns are 32-bit words and wrap around. */
  datatype Point = Point(row: nat, column: nat)

  datatype Token = Token(symbol: nat, text: seq<Byte>, startByte: nat, endByte: nat,
                         startPoint: Point, endPoint: Point)

  // ---------------------------------------------------------------- runes

  predicate Between(s: seq<Byte>, i: nat, lo: nat, hi: nat) {
    i < |s| && lo <= s[i] <= hi
  }

  predicate Two(s: seq<Byte>) {
    |s| > 0 && 0xC2 <= s[0] <= 0xDF && Between(s, 1, 0x80, 0xBF)
  }

  predicate Three(s: seq<Byte>) {
    && |s| > 0 && 0xE0 <= s[0] <= 0xEF
    && Between(s, 1, if s[0] == 0xE0 then 0xA0 else 0x80, if s[0] == 0xED then 0x9F else 0xBF)
    && Between(s, 2, 0x80, 0xBF)
  }

  predicate Four(s: seq<Byte>) {
    && |s| > 0 && 0xF0 <= s[0] <= 0xF4
    && Between(s, 1, if s[0] == 0xF0 then 0x90 else 0x80, if s[0] == 0xF4 then 0x8F else 0xBF)
    && Between(s, 2, 0x80, 0xBF) && Between(s, 3, 0x80, 0xBF)
  }

  /** Bytes taken by the first rune: the well-formed sequences of section 4 of RFC 3629, and
      one byte for anything else. */
  function RuneSize(s: seq<Byte>): nat
    requires |s| > 0
  {
    if Two(s) then 2 else if Three(s) then 3 else if Four(s) then 4 else 1
  }

  function Rune(s: seq<Byte>): nat
    requires |s| > 0
  {
    if s[0] < 0x80 then s[0]
    else if Two(s) then (s[0] - 0xC0) * 0x40 + (s[1] - 0x80)
    else if Three(s) then (s[0] - 0xE0) * 0x1000 + (s[1] - 0x80) * 0x40 + (s[2] - 0x80)
    else if Four(s) then
      (s[0] - 0xF0) * 0x40000 + (s[1] - 0x80) * 0x1000 + (s[2] - 0x80) * 0x40 + (s[3] - 0x80)
    else RUNE_ERROR
  }

  /** No multi-byte rune, well formed or not, hides a newline or a space: the rune is ASCII
      exactly when its first byte is, and then equals it. */
  lemma {:induction false} RuneIsPlainOrHigh(s: seq<Byte>)
    requires |s| > 0
    ensures 1 <= RuneSize(s) <= |s|
    ensures if s[0] < 0x80 then Rune(s) == s[0] && RuneSize(s) == 1 else Rune(s) >= 0x80
    ensures RuneSize(s) > 1 ==> forall i :: 0 <= i < RuneSize(s) ==> s[i] >= 0x80
  {
    if Three(s) {
      if s[0] == 0xE0 {
        assert Rune(s) >= (0xA0 - 0x80) * 0x40;
      } else {
        assert Rune(s) >= 0x1000;
      }
    } else if Four(s) {
      if s[0] == 0xF0 {
        assert Rune(s) >= (0x90 - 0x80) * 0x1000;
      } else {
        assert Rune(s) >= 0x40000;
      }
    }
  }

  /** A Unicode scalar value, with the limits of section 3 of RFC 3629. */
  predicate Scalar(r: nat) {
    r < 0xD800 || 0xE000 <= r <= 0x10FFFF
  }

  /** The bytes of a scalar value, as section 3 of RFC 3629 lays them out. */
  function Encoded(r: nat): (s: seq<Byte>)
    requires Scalar(r)
    ensures |s| > 0
  {
    if r < 0x80 then [r]
    else if r < 0x800 then [0xC0 + r / 0x40, 0x80 + r % 0x40]
    else if r < 0x10000 then [0xE0 + r / 0x1000, 0x80 + r / 0x40 % 0x40, 0x80 + r % 0x40]
    else [0xF0 + r / 0x40000, 0x80 + r / 0x1000 % 0x40, 0x80 + r / 0x40 % 0x40, 0x80 + r % 0x40]
  }

  /** Decoding gives back every encoded value, whatever follows it. */
  lemma {:induction false} DecodesEncoded(r: nat, rest: seq<Byte>)
    requires Scalar(r)
    ensures Rune(Encoded(r) + rest) == r && RuneSize(Encoded(r) + rest) == |Encoded(r)|
  {
    var s := Encoded(r) + rest;
    if 0x80 <= r < 0x800 {
      TwoBytes(r / 0x40, r % 0x40, s);
    } else if 0x800 <= r < 0x10000 {
      Digits(r);
      ThreeBytes(r / 0x1000, r / 0x40 % 0x40, r % 0x40, s);
    } else if r >= 0x10000 {
      Digits(r);
      FourBytes(r / 0x40000, r / 0x1000 % 0x40, r / 0x40 % 0x40, r % 0x40, s);
    }
  }

  /** The base-64 digits of a number. */
  lemma {:induction false} Digits(r: nat)
    ensures r == r / 0x40 * 0x40 + r % 0x40 && r / 0x40 == r / 0x1000 * 0x40 + r / 0x40 % 0x40
    ensures r / 0x1000 == r / 0x40000 * 0x40 + r / 0x1000 % 0x40
  {
  }

  lemma {:induction false} TwoBytes(x: nat, y: nat, s: seq<Byte>)
    requires 2 <= x < 0x20 && y < 0x40 && |s| >= 2 && s[0] == 0xC0 + x && s[1] == 0x80 + y
    ensures RuneSize(s) == 2 && Rune(s) == x * 0x40 + y
  {
  }

  lemma {:induction false} ThreeBytes(x: nat, y: nat, z: nat, s: seq<Byte>)
    requires x < 0x10 && y < 0x40 && z < 0x40 && |s| >= 3 && s[0] == 0xE0 + x && s[1] == 0x80 + y && s[2] == 0x80 + z
    requires (x == 0 ==> y >= 0x20) && (x == 0xD ==> y < 0x20)
    ensures RuneSize(s) == 3 && Rune(s) == (x * 0x40 + y) * 0x40 + z
  {
  }

  lemma {:induction false} FourBytes(w: nat, x: nat, y: nat, z: nat, s: seq<Byte>)
    requires w < 5 && x < 0x40 && y < 0x40 && z < 0x40 && |s| >= 4
    requires s[0] == 0xF0 + w && s[1] == 0x80 + x && s[2] == 0x80 + y && s[3] == 0x80 + z
    requires (w == 0 ==> x >= 0x10) && (w == 4 ==> x < 0x10)
    ensures RuneSize(s) == 4 && Rune(s) == ((w * 0x40 + x) * 0x40 + y) * 0x40 + z
  {
  }

  /** What decoding takes as more than one byte is the encoding of what it gives; all else is one
      byte, an ASCII character or an error. */
  lemma {:induction false} EncodesDecoded(s: seq<Byte>)
    requires |s| > 0
    ensures RuneSize(s) > 1 ==> RuneSize(s) <= |s| && Scalar(Rune(s)) && Encoded(Rune(s)) == s[..RuneSize(s)]
    ensures RuneSize(s) == 1 ==> Rune(s) == if s[0] < 0x80 then s[0] else RUNE_ERROR
  {
    if Two(s) {
      EncodesTwo(s);
    } else if Three(s) {
      EncodesThree(s);
    } else if Four(s) {
      EncodesFour(s);
    }
  }

  lemma {:induction false} EncodesTwo(s: seq<Byte>)
    requires Two(s)
    ensures Scalar(Rune(s)) && Encoded(Rune(s)) == s[..2]
  {
    FromDigits(0, 0, s[0] as int - 0xC0, s[1] as int - 0x80);
  }

  lemma {:induction false} EncodesThree(s: seq<Byte>)
    requires Three(s)
    ensures Scalar(Rune(s)) && Encoded(Rune(s)) == s[..3]
  {
    FromDigits(0, s[0] as int - 0xE0, s[1] as int - 0x80, s[2] as int - 0x80);
  }

  lemma {:induction false} EncodesFour(s: seq<Byte>)
    requires Four(s)
    ensures Scalar(Rune(s)) && Encoded(Rune(s)) == s[..4]
  {
    FromDigits(s[0] as int - 0xF0, s[1] as int - 0x80, s[2] as int - 0x80, s[3] as int - 0x80);
  }

  lemma {:induction false} FromDigits(w: nat, x: nat, y: nat, z: nat)
    requires x < 0x40 && y < 0x40 && z < 0x40
    ensures var r := ((w * 0x40 + x) * 0x40 + y) * 0x40 + z;
      && r % 0x40 == z && r / 0x40 == (w * 0x40 + x) * 0x40 + y && r / 0x40 % 0x40 == y
      && r / 0x1000 == w * 0x40 + x && r / 0x1000 % 0x40 == x && r / 0x40000 == w
  {
  }

  // ---------------------------------------------------------------- the cursor as a value

  datatype State = State(start: nat, pos: nat, end: nat,
                         startPoint: Point, point: Point, endPoint: Point,
                         marked: bool, advanced: bool, symbol: nat, hasResult: bool)

  function Fresh(pos: nat, at: Point): State {
    State(pos, pos, pos, at, at, at, false, false, 0, false)
  }

  function LookaheadAt(src: seq<Byte>, pos: nat): nat {
    if pos >= |src| then 0 else Rune(src[pos..])
  }

  function MovedTo(s: State, pos: nat, point: Point, skip: bool): State {
    if skip then s.(pos := pos, point := point, start := pos, startPoint := point)
    else s.(pos := pos, point := point, advanced := true)
  }

  /** One single-rune move. */
  function Stepped(src: seq<Byte>, s: State, skip: bool): State
    requires s.pos <= |src|
  {
    if s.pos == |src| then s
    else
      var size := RuneSize(src[s.pos..]);
      var point :=
        if Rune(src[s.pos..]) == NEWLINE then Point(Word(s.point.row + 1), 0)
        else Point(s.point.row, Word(s.point.column + size));
      MovedTo(s, s.pos + size, point, skip)
  }

  /** Single-rune moves for as long as there is input and the lookahead is wanted. */
  function SteppedWhile(src: seq<Byte>, s: State, skip: bool, wanted: nat -> bool): State
    requires s.pos <= |src|
    decreases |src| - s.pos
  {
    if s.pos == |src| || !wanted(LookaheadAt(src, s.pos)) then s
    else
      RuneIsPlainOrHigh(src[s.pos..]);
      SteppedWhile(src, Stepped(src, s, skip), skip, wanted)
  }

  function IsSpace(r: nat): bool {
    r == SPACE
  }

  function NotNewline(r: nat): bool {
    r != NEWLINE
  }

  // ---------------------------------------------------------------- points are functions of bytes

  function PointPast(at: Point, b: Byte): Point {
    if b == NEWLINE then Point(Word(at.row + 1), 0) else Point(at.row, Word(at.column + 1))
  }

  /** The point reached from `at` by reading the bytes of `src` from `from` up to `til`. */
  function Walk(src: seq<Byte>, from: nat, at: Point, til: nat): Point
    requires from <= til <= |src|
    decreases til - from
  {
    if from == til then at else PointPast(Walk(src, from, at, til - 1), src[til - 1])
  }

  lemma {:induction false} WalkCompose(src: seq<Byte>, from: nat, at: Point, mid: nat, til: nat)
    requires from <= mid <= til <= |src|
    ensures Walk(src, mid, Walk(src, from, at, mid), til) == Walk(src, from, at, til)
    decreases til - mid
  {
    if mid < til {
      WalkCompose(src, from, at, mid, til - 1);
    }
  }

  /** Along bytes that are no newline only the column moves, and by the number of bytes. */
  lemma {:induction false} WalkAlongLine(src: seq<Byte>, from: nat, at: Point, til: nat)
    requires from < til <= |src|
    requires forall i :: from <= i < til ==> src[i] != NEWLINE
    ensures Walk(src, from, at, til) == Point(at.row, Word(at.column + (til - from)))
    decreases til - from
  {
    if from < til - 1 {
      WalkAlongLine(src, from, at, til - 1);
    } else {
      assert Walk(src, from, at, from) == at;
    }
  }

  /** The newlines among the bytes from `from` up to `til`. */
  ghost function Newlines(src: seq<Byte>, from: nat, til: nat): set<nat>
    requires from <= til <= |src|
  {
    set i: nat | from <= i < til && src[i] == NEWLINE
  }

  lemma {:induction false} WordNext(x: nat)
    ensures Word(Word(x) + 1) == Word(x + 1)
  {
  }

  /** The row has moved by the number of newlines read. */
  lemma {:induction false} WalkCountsRows(src: seq<Byte>, from: nat, at: Point, til: nat)
    requires from <= til <= |src| && at.row < WORD32
    ensures Walk(src, from, at, til).row == Word(at.row + |Newlines(src, from, til)|)
    decreases til - from
  {
    if from < til {
      var before, now := Newlines(src, from, til - 1), Newlines(src, from, til);
      WalkCountsRows(src, from, at, til - 1);
      if src[til - 1] == NEWLINE {
        assert now == before + {til - 1};
        WordNext(at.row + |before|);
      } else {
        assert now == before;
      }
    } else {
      assert Newlines(src, from, til) == {};
    }
  }

  /** The column counts the bytes since the last newline; `WalkAlongLine` has the case of none. */
  lemma {:induction false} WalkCountsColumns(src: seq<Byte>, from: nat, at: Point, til: nat, last: nat)
    requires from <= last < til <= |src| && src[last] == NEWLINE && forall i :: last < i < til ==> src[i] != NEWLINE
    ensures Walk(src, from, at, til).column == Word(til - last - 1)
  {
    WalkCompose(src, from, at, last + 1, til);
    if last + 1 < til {
      WalkAlongLine(src, last + 1, Walk(src, from, at, last + 1), til);
    }
  }

  /** A single-rune move, whatever the bytes, is a walk over the bytes it takes. */
  lemma {:induction false} StepWalks(src: seq<Byte>, s: State, skip: bool)
    requires s.pos < |src|
    ensures var t := Stepped(src, s, skip);
      && s.pos < t.pos <= |src|
      && t == MovedTo(s, t.pos, Walk(src, s.pos, s.point, t.pos), skip)
      && (forall i :: s.pos < i < t.pos ==> src[i] >= 0x80)
      && (src[s.pos] < 0x80 ==> t.pos == s.pos + 1)
  {
    var rest := src[s.pos..];
    RuneIsPlainOrHigh(rest);
    var t := Stepped(src, s, skip);
    forall i | s.pos < i < t.pos ensures src[i] >= 0x80 {
      assert rest[i - s.pos] == src[i];
    }
    if Rune(rest) == NEWLINE {
      assert Walk(src, s.pos, s.point, s.pos) == s.point;
    } else {
      WalkAlongLine(src, s.pos, s.point, t.pos);
    }
  }

  /** Where the single moves stop: a walk over every byte up to the first unwanted one. */
  lemma {:induction false} StepsWalk(src: seq<Byte>, s: State, skip: bool, wanted: nat -> bool)
    requires s.pos <= |src|
    ensures var t := SteppedWhile(src, s, skip, wanted);
      && s.pos <= t.pos <= |src|
      && t == (if t.pos == s.pos then s else MovedTo(s, t.pos, Walk(src, s.pos, s.point, t.pos), skip))
      && (t.pos < |src| ==> !wanted(LookaheadAt(src, t.pos)))
    decreases |src| - s.pos
  {
    if s.pos < |src| && wanted(LookaheadAt(src, s.pos)) {
      StepWalks(src, s, skip);
      var u := Stepped(src, s, skip);
      StepsWalk(src, u, skip, wanted);
      WalkCompose(src, s.pos, s.point, u.pos, SteppedWhile(src, s, skip, wanted).pos);
    }
  }

  /** Every rune passed over was a space, so every byte was. */
  lemma {:induction false} SpacesPassed(src: seq<Byte>, s: State, skip: bool)
    requires s.pos <= |src|
    ensures var t := SteppedWhile(src, s, skip, IsSpace);
      s.pos <= t.pos <= |src| && forall i :: s.pos <= i < t.pos ==> src[i] == SPACE
    decreases |src| - s.pos
  {
    if s.pos < |src| && IsSpace(LookaheadAt(src, s.pos)) {
      RuneIsPlainOrHigh(src[s.pos..]);
      StepWalks(src, s, skip);
      SpacesPassed(src, Stepped(src, s, skip), skip);
    }
  }

  /** No rune passed over was a newline, and no byte inside one was. */
  lemma {:induction false} LinePassed(src: seq<Byte>, s: State, skip: bool)
    requires s.pos <= |src|
    ensures var t := SteppedWhile(src, s, skip, NotNewline);
      s.pos <= t.pos <= |src| && forall i :: s.pos <= i < t.pos ==> src[i] != NEWLINE
    decreases |src| - s.pos
  {
    if s.pos < |src| && NotNewline(LookaheadAt(src, s.pos)) {
      RuneIsPlainOrHigh(src[s.pos..]);
      StepWalks(src, s, skip);
      LinePassed(src, Stepped(src, s, skip), skip);
    }
  }

  /** A byte scan that stops at the first byte unlike `SPACE` ends where single moves end. */
  lemma {:induction false} BulkSpaces(src: seq<Byte>, s: State, skip: bool, til: nat)
    requires s.pos <= til <= |src|
    requires forall i :: s.pos <= i < til ==> src[i] == SPACE
    requires til < |src| ==> src[til] != SPACE
    ensures SteppedWhile(src, s, skip, IsSpace) ==
      if til == s.pos then s
      else MovedTo(s, til, Point(s.point.row, Word(s.point.column + (til - s.pos))), skip)
  {
    StepsWalk(src, s, skip, IsSpace);
    SpacesPassed(src, s, skip);
    var t := SteppedWhile(src, s, skip, IsSpace);
    if t.pos < |src| {
      RuneIsPlainOrHigh(src[t.pos..]);
    }
    assert t.pos == til;
    if s.pos < til {
      WalkAlongLine(src, s.pos, s.point, til);
    }
  }

  /** A byte scan that stops at the first newline byte ends where single moves end, even when
      the bytes between are no well-formed text. */
  lemma {:induction false} BulkLine(src: seq<Byte>, s: State, skip: bool, til: nat)
    requires s.pos <= til <= |src|
    requires forall i :: s.pos <= i < til ==> src[i] != NEWLINE
    requires til < |src| ==> src[til] == NEWLINE
    ensures SteppedWhile(src, s, skip, NotNewline) ==
      if til == s.pos then s
      else MovedTo(s, til, Point(s.point.row, Word(s.point.column + (til - s.pos))), skip)
  {
    StepsWalk(src, s, skip, NotNewline);
    LinePassed(src, s, skip);
    var t := SteppedWhile(src, s, skip, NotNewline);
    if t.pos < |src| {
      RuneIsPlainOrHigh(src[t.pos..]);
      assert src[t.pos] == NEWLINE;
    }
    assert t.pos == til;
    if s.pos < til {
      WalkAlongLine(src, s.pos, s.point, til);
    }
  }

  // ---------------------------------------------------------------- tokens and runs

  /** The token of a finished scan.  Without a mark the end is the cursor; a mark before the
      start yields an empty token at the mark. */
  function TokenOf(src: seq<Byte>, s: State): Option<Token>
    requires s.start <= s.pos <= |src| && s.end <= |src|
  {
    if !s.hasResult then None
    else
      var end := if s.marked then s.end else s.pos;
      var endPoint := if s.marked then s.endPoint else s.point;
      if end < s.start then Some(Token(s.symbol, [], Word(end), Word(end), endPoint, endPoint))
      else Some(Token(s.symbol, src[s.start..end], Word(s.start), Word(end), s.startPoint, endPoint))
  }

  datatype Move = Advance(skip: bool) | Spaces(skip: bool) | Line(skip: bool) | Mark | Emit(symbol: nat)

  function Moved(src: seq<Byte>, s: State, m: Move): State
    requires s.pos <= |src|
  {
    match m
    case Advance(skip) => Stepped(src, s, skip)
    case Spaces(skip) => SteppedWhile(src, s, skip, IsSpace)
    case Line(skip) => SteppedWhile(src, s, skip, NotNewline)
    case Mark => s.(end := s.pos, endPoint := s.point, marked := true)
    case Emit(symbol) => s.(symbol := symbol, hasResult := true)
  }

  /** What every move keeps: positions in order and in range, and each point the one that
      reading the bytes up to its position from the scan's origin gives. */
  ghost predicate Sound(src: seq<Byte>, pos: nat, at: Point, s: State) {
    && pos <= s.start <= s.pos <= |src| && pos <= s.end <= s.pos
    && s.startPoint == Walk(src, pos, at, s.start)
    && s.point == Walk(src, pos, at, s.pos)
    && s.endPoint == Walk(src, pos, at, s.end)
  }

  lemma {:induction false} MoveKeepsSound(src: seq<Byte>, pos: nat, at: Point, s: State, m: Move)
    requires Sound(src, pos, at, s)
    ensures Sound(src, pos, at, Moved(src, s, m))
  {
    var t := Moved(src, s, m);
    match m {
      case Advance(skip) =>
        if s.pos < |src| {
          StepWalks(src, s, skip);
          WalkCompose(src, pos, at, s.pos, t.pos);
        }
      case Spaces(skip) =>
        StepsWalk(src, s, skip, IsSpace);
        WalkCompose(src, pos, at, s.pos, t.pos);
      case Line(skip) =>
        StepsWalk(src, s, skip, NotNewline);
        WalkCompose(src, pos, at, s.pos, t.pos);
      case Mark =>
      case Emit(_) =>
    }
  }

  /** The state after a run of moves on a lexer reset to `pos`. */
  ghost function Run(src: seq<Byte>, pos: nat, at: Point, moves: seq<Move>): (s: State)
    requires pos <= |src|
    ensures Sound(src, pos, at, s)
    decreases |moves|
  {
    if moves == [] then
      assert Walk(src, pos, at, pos) == at;
      Fresh(pos, at)
    else
      var s := Run(src, pos, at, moves[..|moves| - 1]);
      MoveKeepsSound(src, pos, at, s, moves[|moves| - 1]);
      Moved(src, s, moves[|moves| - 1])
  }

  /** The token names a stretch of `src` from `pos` on, with its text and its points. */
  ghost predicate Names(src: seq<Byte>, pos: nat, at: Point, token: Token)
    requires pos <= |src|
  {
    && pos <= token.startByte <= token.endByte <= |src|
    && token.text == src[token.startByte..token.endByte]
    && token.startPoint == Walk(src, pos, at, token.startByte)
    && token.endPoint == Walk(src, pos, at, token.endByte)
  }

  lemma {:induction false} SoundYieldsToken(src: seq<Byte>, pos: nat, at: Point, s: State)
    requires Sound(src, pos, at, s) && |src| < WORD32
    ensures TokenOf(src, s).Some? ==> Names(src, pos, at, TokenOf(src, s).value)
  {
    var end := if s.marked then s.end else s.pos;
    assert Word(end) == end && Word(s.start) == s.start;
  }

  /** Whatever the moves and marks, on a source a 32-bit offset can address the token's start
      is no later than its end, its text is the bytes between, and its points are those of
      its bytes. */
  lemma {:induction false} RunYieldsToken(src: seq<Byte>, pos: nat, at: Point, moves: seq<Move>)
    requires pos <= |src| < WORD32
    ensures var token := TokenOf(src, Run(src, pos, at, moves));
      token.Some? ==> Names(src, pos, at, token.value)
  {
    var s := Run(src, pos, at, moves);
    SoundYieldsToken(src, pos, at, s);
  }

  // ---------------------------------------------------------------- what decides a token

  predicate IsMark(m: Move) {
    m.Mark?
  }

  predicate IsEmit(m: Move) {
    m.Emit?
  }

  /** A move that may skip bytes. */
  predicate Skips(m: Move) {
    (m.Advance? || m.Spaces? || m.Line?) && m.skip
  }

  /** The states of a run, the first one fresh and one more after each move. */
  ghost function Trace(src: seq<Byte>, pos: nat, at: Point, moves: seq<Move>): (trace: seq<State>)
    requires pos <= |src|
    ensures |trace| == |moves| + 1
  {
    seq(|moves| + 1, n requires 0 <= n <= |moves| => Run(src, pos, at, moves[..n]))
  }

  /** Of the first `n` moves the last that `which` picks is move `k`. */
  ghost predicate LastOf(moves: seq<Move>, n: nat, which: Move -> bool, k: nat) {
    k < n <= |moves| && which(moves[k]) && forall j: nat :: k < j < n ==> !which(moves[j])
  }

  ghost predicate NoneOf(moves: seq<Move>, n: nat, which: Move -> bool) {
    n <= |moves| && forall j: nat :: j < n ==> !which(moves[j])
  }

  /** Where the token ends: where the cursor was at the last mark, or is now if there is none. */
  ghost predicate EndsToken(trace: seq<State>, moves: seq<Move>, n: nat, end: nat)
    requires n <= |moves| < |trace|
  {
    || (exists k: nat :: LastOf(moves, n, IsMark, k) && end == trace[k].pos)
    || (NoneOf(moves, n, IsMark) && end == trace[n].pos)
  }

  /** Move `k` skipped some bytes. */
  ghost predicate Dragged(trace: seq<State>, moves: seq<Move>, k: nat)
    requires k < |moves| < |trace|
  {
    Skips(moves[k]) && trace[k].pos < trace[k + 1].pos
  }

  /** Of the first `n` moves the last that skipped bytes is move `k`. */
  ghost predicate LastDrag(trace: seq<State>, moves: seq<Move>, n: nat, k: nat)
    requires n <= |moves| < |trace|
  {
    k < n && Dragged(trace, moves, k) && forall j: nat :: k < j < n ==> !Dragged(trace, moves, j)
  }

  /** Where it starts: after the last bytes skipped, or where the scan began. */
  ghost predicate StartsToken(trace: seq<State>, moves: seq<Move>, n: nat, start: nat)
    requires n <= |moves| < |trace|
  {
    || (exists k: nat :: LastDrag(trace, moves, n, k) && start == trace[k + 1].pos)
    || ((forall j: nat :: j < n ==> !Dragged(trace, moves, j)) && start == trace[0].pos)
  }

  /** What a single move changes. */
  ghost predicate Touches(s: State, m: Move, t: State) {
    && (if m.Mark? then t.marked && t.end == s.pos else t.marked == s.marked && t.end == s.end)
    && (if m.Emit? then t.hasResult && t.symbol == m.symbol else t.hasResult == s.hasResult && t.symbol == s.symbol)
    && t.start == (if Skips(m) && s.pos < t.pos then t.pos else s.start)
    && s.pos <= t.pos
  }

  lemma {:induction false} MoveTouches(src: seq<Byte>, s: State, m: Move)
    requires s.pos <= |src|
    ensures Touches(s, m, Moved(src, s, m))
  {
    match m {
      case Advance(skip) =>
        if s.pos < |src| {
          StepWalks(src, s, skip);
        }
      case Spaces(skip) => StepsWalk(src, s, skip, IsSpace);
      case Line(skip) => StepsWalk(src, s, skip, NotNewline);
      case Mark =>
      case Emit(_) =>
    }
  }

  ghost predicate Traced(trace: seq<State>, moves: seq<Move>) {
    && |trace| == |moves| + 1
    && !trace[0].marked && !trace[0].hasResult && trace[0].start == trace[0].pos
    && forall k: nat :: k < |moves| ==> Touches(trace[k], moves[k], trace[k + 1])
  }

  lemma {:induction false} RunIsTraced(src: seq<Byte>, pos: nat, at: Point, moves: seq<Move>)
    requires pos <= |src|
    ensures Traced(Trace(src, pos, at, moves), moves) && Trace(src, pos, at, moves)[|moves|] == Run(src, pos, at, moves)
  {
    var trace := Trace(src, pos, at, moves);
    assert moves[..|moves|] == moves && moves[..0] == [];
    forall k: nat | k < |moves|
      ensures Touches(trace[k], moves[k], trace[k + 1])
    {
      assert moves[..k + 1][..k] == moves[..k] && moves[..k + 1][k] == moves[k];
      MoveTouches(src, Run(src, pos, at, moves[..k]), moves[k]);
    }
  }

  /** The mark remembered is the last one. */
  lemma {:induction false} LastMarkHolds(trace: seq<State>, moves: seq<Move>, n: nat)
    requires Traced(trace, moves) && n <= |moves|
    ensures trace[n].marked <==> !NoneOf(moves, n, IsMark)
    ensures EndsToken(trace, moves, n, if trace[n].marked then trace[n].end else trace[n].pos)
    decreases n
  {
    if n > 0 {
      LastMarkHolds(trace, moves, n - 1);
      assert Touches(trace[n - 1], moves[n - 1], trace[n - 1 + 1]);
      if moves[n - 1].Mark? {
        assert LastOf(moves, n, IsMark, n - 1);
      } else if trace[n].marked {
        var k: nat :| LastOf(moves, n - 1, IsMark, k) && trace[n - 1].end == trace[k].pos;
        assert LastOf(moves, n, IsMark, k);
      }
    }
  }

  /** The symbol set is the last one. */
  lemma {:induction false} LastEmitHolds(trace: seq<State>, moves: seq<Move>, n: nat)
    requires Traced(trace, moves) && n <= |moves|
    ensures trace[n].hasResult <==> !NoneOf(moves, n, IsEmit)
    ensures trace[n].hasResult ==> exists k: nat :: LastOf(moves, n, IsEmit, k) && moves[k] == Emit(trace[n].symbol)
    decreases n
  {
    if n > 0 {
      LastEmitHolds(trace, moves, n - 1);
      assert Touches(trace[n - 1], moves[n - 1], trace[n - 1 + 1]);
      if moves[n - 1].Emit? {
        assert LastOf(moves, n, IsEmit, n - 1);
      } else if trace[n].hasResult {
        var k: nat :| LastOf(moves, n - 1, IsEmit, k) && moves[k] == Emit(trace[n - 1].symbol);
        assert LastOf(moves, n, IsEmit, k);
      }
    }
  }

  /** The start remembered is past the last bytes skipped. */
  lemma {:induction false} LastSkipHolds(trace: seq<State>, moves: seq<Move>, n: nat)
    requires Traced(trace, moves) && n <= |moves|
    ensures StartsToken(trace, moves, n, trace[n].start)
    decreases n
  {
    if n > 0 {
      LastSkipHolds(trace, moves, n - 1);
      assert Touches(trace[n - 1], moves[n - 1], trace[n - 1 + 1]);
      if Dragged(trace, moves, n - 1) {
        assert LastDrag(trace, moves, n, n - 1);
      } else if exists j: nat :: j < n - 1 && Dragged(trace, moves, j) {
        var k: nat :| LastDrag(trace, moves, n - 1, k) && trace[n - 1].start == trace[k + 1].pos;
        assert LastDrag(trace, moves, n, k);
      }
    }
  }

  /** The token's symbol and span, in terms of the moves. */
  ghost predicate Decided(trace: seq<State>, moves: seq<Move>, token: Token)
    requires |trace| == |moves| + 1
  {
    && (exists k: nat :: LastOf(moves, |moves|, IsEmit, k) && moves[k] == Emit(token.symbol))
    && (exists start: nat, end: nat ::
          && StartsToken(trace, moves, |moves|, start) && EndsToken(trace, moves, |moves|, end)
          && token.endByte == Word(end) && token.startByte == if end < start then Word(end) else Word(start))
  }

  /** A token comes out exactly when a symbol was set, and carries the last one set.  It ends where
      the cursor was at the last mark, or is at the end of the scan without one, and starts past
      the last bytes skipped, or at its end when that comes first. */
  lemma {:induction false} MarksDecideToken(src: seq<Byte>, pos: nat, at: Point, moves: seq<Move>)
    requires pos <= |src|
    ensures var token := TokenOf(src, Run(src, pos, at, moves));
      && (token.None? <==> NoneOf(moves, |moves|, IsEmit))
      && (token.Some? ==> Decided(Trace(src, pos, at, moves), moves, token.value))
  {
    var trace := Trace(src, pos, at, moves);
    RunIsTraced(src, pos, at, moves);
    LastMarkHolds(trace, moves, |moves|);
    LastEmitHolds(trace, moves, |moves|);
    LastSkipHolds(trace, moves, |moves|);
    TokenIsDecided(src, trace, moves);
  }

  lemma {:induction false} TokenIsDecided(src: seq<Byte>, trace: seq<State>, moves: seq<Move>)
    requires |trace| == |moves| + 1
    requires var s := trace[|moves|];
      && s.start <= s.pos <= |src| && s.end <= |src|
      && EndsToken(trace, moves, |moves|, if s.marked then s.end else s.pos) && StartsToken(trace, moves, |moves|, s.start)
      && (s.hasResult ==> exists k: nat :: LastOf(moves, |moves|, IsEmit, k) && moves[k] == Emit(s.symbol))
    ensures var token := TokenOf(src, trace[|moves|]);
      token.Some? ==> Decided(trace, moves, token.value)
  {
  }

  ghost predicate Ordered(token: Option<Token>) {
    token.Some? ==> token.value.startByte <= token.value.endByte
  }

  ghost predicate AllOrdered(src: seq<Byte>) {
    forall pos: nat, at: Point, moves: seq<Move> {:trigger Run(src, pos, at, moves)} ::
      pos <= |src| ==> Ordered(TokenOf(src, Run(src, pos, at, moves)))
  }

  /** One rune taken across the 2^32 boundary wraps the end offset below the start. */
  lemma {:induction false} LongSourceWraps(src: seq<Byte>)
    requires |src| >= WORD32
    ensures var moves := [Emit(0), Advance(false)];
      !Ordered(TokenOf(src, Run(src, WORD32 - 1, Point(0, 0), moves)))
  {
    var moves := [Emit(0), Advance(false)];
    var origin := Fresh(WORD32 - 1, Point(0, 0));
    var emitted := origin.(symbol := 0, hasResult := true);
    assert moves[..1] == [Emit(0)] && [Emit(0)][..0] == [];
    assert Run(src, WORD32 - 1, Point(0, 0), []) == origin;
    assert Run(src, WORD32 - 1, Point(0, 0), [Emit(0)]) == emitted;
    var s := Run(src, WORD32 - 1, Point(0, 0), moves);
    assert s == Stepped(src, emitted, false);
    RuneIsPlainOrHigh(src[WORD32 - 1..]);
    StepWalks(src, emitted, false);
    assert WORD32 <= s.pos <= WORD32 + 3;
  }

  /** Ordered tokens over every run are promised exactly for sources below 2^32 bytes. */
  lemma {:induction false} OrderedIffAddressable(src: seq<Byte>)
    ensures AllOrdered(src) <==> |src| < WORD32
  {
    if |src| < WORD32 {
      forall pos: nat, at: Point, moves: seq<Move> | pos <= |src|
        ensures Ordered(TokenOf(src, Run(src, pos, at, moves)))
      {
        RunYieldsToken(src, pos, at, moves);
      }
    } else {
      LongSourceWraps(src);
    }
  }

  // ---------------------------------------------------------------- the lexer itself

  class ExternalLexer {
    var source: seq<Byte>
    var startPos: nat
    var pos: nat
    var endPos: nat
    var startPoint: Point
    var point: Point
    var endPoint: Point
    var endMarked: bool
    var advancedContent: bool
    var resultSymbol: nat
    var hasResult: bool

    function View(): State
      reads this
    {
      State(startPos, pos, endPos, startPoint, point, endPoint, endMarked, advancedContent, resultSymbol, hasResult)
    }

    ghost predicate Valid()
      reads this
    {
      startPos <= pos <= |source| && endPos <= pos
    }

    constructor (src: seq<Byte>, at: nat, point: Point)
      requires at <= |src|
      ensures Valid() && source == src && View() == Fresh(at, point)
    {
      new;
      Reset(src, at, point);
    }

    method Reset(src: seq<Byte>, at: nat, point: Point)
      requires at <= |src|
      modifies this
      ensures Valid() && source == src && View() == Fresh(at, point)
    {
      source, startPos, pos, endPos := src, at, at, at;
      startPoint, this.point, endPoint := point, point, point;
      endMarked, advancedContent := false, false;
      resultSymbol, hasResult := 0, false;
    }

    method Lookahead() returns (r: nat)
      requires Valid()
      ensures r == LookaheadAt(source, pos)
    {
      if pos >= |source| {
        return 0;
      }
      var b := source[pos];
      if b < 0x80 {
        return b;
      }
      return Rune(source[pos..]);
    }

    method Advance(skip: bool)
      requires Valid()
      modifies this
      ensures Valid() && source == old(source)
      ensures View() == Stepped(source, old(View()), skip)
    {
      if pos >= |source| {
        return;
      }
      StepWalks(source, View(), skip);
      RuneIsPlainOrHigh(source[pos..]);
      var b := source[pos];
      var r, size := b, 1;
      if b >= 0x80 {
        r, size := Rune(source[pos..]), RuneSize(source[pos..]);
      }
      pos := pos + size;
      if r == NEWLINE {
        point := Point(Word(point.row + 1), 0);
      } else {
        point := point.(column := Word(point.column + size));
      }
      Settle(skip);
    }

    /** Tail shared by the three moves: skipping drags the token start along. */
    method Settle(skip: bool)
      requires startPos <= pos <= |source| && endPos <= pos
      modifies this
      ensures Valid() && source == old(source)
      ensures View() == MovedTo(old(View()), old(pos), old(point), skip)
    {
      if skip {
        startPos := pos;
        startPoint := point;
      } else {
        advancedContent := true;
      }
    }

    /** Equal to single moves for as long as the lookahead is a space. */
    method AdvanceSpaces(skip: bool) returns (n: nat)
      requires Valid()
      modifies this
      ensures Valid() && source == old(source)
      ensures View() == SteppedWhile(source, old(View()), skip, IsSpace)
      ensures n == pos - old(pos)
    {
      if pos >= |source| || source[pos] != SPACE {
        BulkSpaces(source, View(), skip, pos);
        return 0;
      }
      var start := pos;
      while pos < |source| && source[pos] == SPACE
        invariant start <= pos <= |source|
        invariant start < |source| && source[start] == SPACE
        invariant source == old(source) && View() == old(View()).(pos := pos)
        invariant forall i :: start <= i < pos ==> source[i] == SPACE
      {
        pos := pos + 1;
      }
      BulkSpaces(source, old(View()), skip, pos);
      n := pos - start;
      point := point.(column := Word(point.column + n));
      Settle(skip);
    }

    /** Equal to single moves for as long as there is input and the lookahead is no newline. */
    method AdvanceUntilNewline(skip: bool) returns (n: nat)
      requires Valid()
      modifies this
      ensures Valid() && source == old(source)
      ensures View() == SteppedWhile(source, old(View()), skip, NotNewline)
      ensures n == pos - old(pos)
    {
      if pos >= |source| || source[pos] == NEWLINE {
        BulkLine(source, View(), skip, pos);
        return 0;
      }
      var start := pos;
      while pos < |source| && source[pos] != NEWLINE
        invariant start <= pos <= |source|
        invariant start < |source| && source[start] != NEWLINE
        invariant source == old(source) && View() == old(View()).(pos := pos)
        invariant forall i :: start <= i < pos ==> source[i] != NEWLINE
      {
        pos := pos + 1;
      }
      BulkLine(source, old(View()), skip, pos);
      n := pos - start;
      point := point.(column := Word(point.column + n));
      Settle(skip);
    }

    method MarkEnd()
      requires Valid()
      modifies this
      ensures Valid() && source == old(source) && View() == Moved(source, old(View()), Mark)
    {
      endPos, endPoint, endMarked := pos, point, true;
    }

    method SetResultSymbol(symbol: nat)
      requires Valid()
      modifies this
      ensures Valid() && source == old(source) && View() == Moved(source, old(View()), Emit(symbol))
    {
      resultSymbol, hasResult := symbol, true;
    }

    method Finish() returns (token: Option<Token>)
      requires Valid()
      ensures token == TokenOf(source, View())
    {
      if !hasResult {
        return None;
      }
      var end, at := endPos, endPoint;
      if !endMarked {
        end, at := pos, point;
      }
      if end < startPos {
        return Some(Token(resultSymbol, [], Word(end), Word(end), at, at));
      }
      return Some(Token(resultSymbol, source[startPos..end], Word(startPos), Word(end), startPoint, at));
    }

  }
}
