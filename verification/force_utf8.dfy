/**
 The byte rewriter of ForceUtf8String.cpp, used by the BibTeX import: it
 keeps well-formed two- and three-byte UTF-8 sequences, turns Windows-1252
 and extended-ASCII letters into their two-byte UTF-8 form, deletes the
 braces of LaTeX commands and turns LaTeX accent commands (`\'e`, `\ae`,
 `\o`, ...) into UTF-8 letters.

 The string is scanned once, left to right; a step looks at the bytes from
 the scanning position on, writes some bytes that are not looked at again
 and leaves the rest. The pointer `utf8seq` is a static variable: until
 the current call sets it, it still points into the frame of an earlier
 call (or is null on the first call), and using it is undefined behaviour,
 modelled by `None`.
 */
module ForceUtf8 {
  import opened Wrappers
  import opened Bytes

  // ---------------------------------------------------------------------------
  // Byte classes, on signed chars as the source compares them
  // ---------------------------------------------------------------------------

  /** `str[i] > '\301' && str[i] < '\340'`: the lead of a two-byte sequence. */
  predicate IsLead2(b: byte)
    ensures IsLead2(b) <==> 0xC2 <= b <= 0xDF
  {
    Signed(b) > Signed(0xC1) && Signed(b) < Signed(0xE0)
  }

  /** `str[i] > '\337' && str[i] < '\360'`: the lead of a three-byte sequence. */
  predicate IsLead3(b: byte)
    ensures IsLead3(b) <==> 0xE0 <= b <= 0xEF
  {
    Signed(b) > Signed(0xDF) && Signed(b) < Signed(0xF0)
  }

  /** `uchar(c) > '\177' && c < '\300'`: a continuation byte. */
  predicate IsCont(b: byte)
    ensures IsCont(b) <==> 0x80 <= b <= 0xBF
  {
    b > 0x7F && Signed(b) < Signed(0xC0)
  }

  // ---------------------------------------------------------------------------
  // The buffers and the scan state
  // ---------------------------------------------------------------------------

  /** The two-byte buffers `c3`, `c4` and `c5`, named after their fixed lead byte. */
  datatype Buf = C3 | C4 | C5

  function Lead(l: Buf): (r: byte)
    ensures IsLead2(r)
  {
    match l
    case C3 => 0xC3
    case C4 => 0xC4
    case C5 => 0xC5
  }

  /**
   `charComposing` (0 when no accent command is pending), the buffer
   `utf8seq` was pointed at by this call if any, and the second byte of
   each buffer.
   */
  datatype State = State(composing: byte, ptr: Option<Buf>, c3: byte, c4: byte, c5: byte)

  /** The buffers start as the lead byte and a space. */
  const Start := State(0, None, 0x20, 0x20, 0x20)

  function Second(st: State, l: Buf): byte
  {
    match l
    case C3 => st.c3
    case C4 => st.c4
    case C5 => st.c5
  }

  /** `cX[1] = v`. */
  function Write(st: State, l: Buf, v: byte): (r: State)
    ensures Second(r, l) == v && r.composing == st.composing && r.ptr == st.ptr
    ensures forall m :: m != l ==> Second(r, m) == Second(st, m)
  {
    match l
    case C3 => st.(c3 := v)
    case C4 => st.(c4 := v)
    case C5 => st.(c5 := v)
  }

  /** `seq(cX)[1] = v`: the buffer is written and `utf8seq` points at it. */
  function Point(st: State, l: Buf, v: byte): (r: State)
    ensures Second(r, l) == v && r.ptr == Some(l) && r.composing == st.composing
  {
    Write(st, l, v).(ptr := Some(l))
  }

  // ---------------------------------------------------------------------------
  // The tables
  // ---------------------------------------------------------------------------

  /** The second byte after C3 for an extended-ASCII (code page 437) or Windows-1252 letter. */
  function Legacy(b: byte): (r: Option<byte>)
    ensures r.Some? ==> b >= 0x80 && b != 0xC3 && IsCont(r.value)
  {
    if b == 0x82 || b == 0xE9 then Some(0xA9)       // é
    else if b == 0x88 || b == 0xEA then Some(0xAA)  // ê
    else if b == 0x89 || b == 0xEB then Some(0xAB)  // ë
    else if b == 0x8A || b == 0xE8 then Some(0xA8)  // è
    else if b == 0xA0 || b == 0xE1 then Some(0xA1)  // á
    else if b == 0x83 || b == 0xE2 then Some(0xA2)  // â
    else if b == 0x84 || b == 0xE4 then Some(0xA4)  // ä
    else if b == 0x85 || b == 0xE0 then Some(0xA0)  // à
    else if b == 0x86 || b == 0xE5 then Some(0xA5)  // å
    else if b == 0xE3 then Some(0xA3)               // ã
    else if b == 0x8B || b == 0xEF then Some(0xAF)  // ï
    else if b == 0x8C || b == 0xEE then Some(0xAE)  // î
    else if b == 0x8D || b == 0xEC then Some(0xAC)  // ì
    else if b == 0xA1 || b == 0xED then Some(0xAD)  // í
    else if b == 0x93 || b == 0xF4 then Some(0xB4)  // ô
    else if b == 0x94 || b == 0xF6 then Some(0xB6)  // ö
    else if b == 0x95 || b == 0xF2 then Some(0xB2)  // ò
    else if b == 0x9B || b == 0xF8 then Some(0xB8)  // ø
    else if b == 0xF5 then Some(0xB5)               // õ
    else if b == 0xA2 || b == 0xF3 then Some(0xB3)  // ó
    else if b == 0x81 || b == 0xFC then Some(0xBC)  // ü
    else if b == 0x96 || b == 0xFB then Some(0xBB)  // û
    else if b == 0x97 || b == 0xF9 then Some(0xB9)  // ù
    else if b == 0xA3 || b == 0xFA then Some(0xBA)  // ú
    else if b == 0x98 || b == 0xFF then Some(0xBF)  // ÿ
    else if b == 0xE7 then Some(0xA7)               // ç
    else if b == 0xA4 || b == 0xF1 then Some(0xB1)  // ñ
    else if b == 0x90 || b == 0xC9 then Some(0x89)  // É
    else if b == 0xD2 || b == 0xCA then Some(0x8A)  // Ê
    else if b == 0xD3 || b == 0xCB then Some(0x8B)  // Ë
    else if b == 0xD4 || b == 0xC8 then Some(0x88)  // È
    else if b == 0xDF then Some(0x9F)               // ß
    else None
  }

  /** The characters after a backslash that start an accent command. */
  predicate IsAccent(c: char)
  {
    c == '`' || c == '\'' || c == '^' || c == '"' || c == '~' || c == '=' || c == '.'
    || c == 'b' || c == 'c' || c == 'k' || c == 'r' || c == 's' || c == 'u' || c == 'v'
  }

  /** The dotless i `\i` under a pending accent. */
  function DotlessI(accent: char): (r: Option<(Buf, byte)>)
    ensures r.Some? ==> IsCont(r.value.1)
  {
    match accent
    case '`' => Some((C3, 0xAC))
    case '\'' => Some((C3, 0xAD))
    case '^' => Some((C3, 0xAE))
    case '"' => Some((C3, 0xAF))
    case '~' => Some((C4, 0xA9))
    case '=' => Some((C4, 0xAB))
    case 'u' => Some((C4, 0xAC))
    case _ => None
  }

  /** A letter under a pending accent, as the source intends it (Č included). */
  function Composed(letter: char, accent: char): Option<(Buf, byte)>
  {
    match letter
    case 'a' => (match accent
      case '`' => Some((C3, 0xA0)) case '\'' => Some((C3, 0xA1)) case '^' => Some((C3, 0xA2))
      case '~' => Some((C3, 0xA3)) case '"' => Some((C3, 0xA4)) case 'r' => Some((C3, 0xA5))
      case '=' => Some((C4, 0x81)) case 'u' => Some((C4, 0x83)) case 'k' => Some((C4, 0x85))
      case _ => None)
    case 'c' => (match accent
      case 'c' => Some((C3, 0xA7)) case '\'' => Some((C4, 0x87)) case '^' => Some((C4, 0x89))
      case '.' => Some((C4, 0x8B)) case 'v' => Some((C4, 0x8D))
      case _ => None)
    case 'd' => if accent == 'v' then Some((C4, 0x8F)) else None
    case 'e' => (match accent
      case '`' => Some((C3, 0xA8)) case '\'' => Some((C3, 0xA9)) case '^' => Some((C3, 0xAA))
      case '"' => Some((C3, 0xAB)) case '=' => Some((C4, 0x93)) case 'u' => Some((C4, 0x95))
      case '.' => Some((C4, 0x97)) case 'k' => Some((C4, 0x99)) case 'v' => Some((C4, 0x9B))
      case _ => None)
    case 'g' => (match accent
      case '^' => Some((C4, 0x9D)) case 'u' => Some((C4, 0x9F)) case '.' => Some((C4, 0xA1))
      case 'c' => Some((C4, 0xA3))
      case _ => None)
    case 'h' => if accent == '^' then Some((C4, 0xA5)) else None
    case 'j' => if accent == '^' then Some((C4, 0xB5)) else None
    case 'k' => if accent == 'c' then Some((C4, 0xB7)) else None
    case 'l' => (match accent
      case '\'' => Some((C4, 0xBA)) case 'c' => Some((C4, 0xBC)) case 'v' => Some((C4, 0xBE))
      case _ => None)
    case 'n' => (match accent
      case '~' => Some((C3, 0xB1)) case '\'' => Some((C5, 0x84)) case 'c' => Some((C5, 0x86))
      case 'v' => Some((C5, 0x88))
      case _ => None)
    case 'o' => (match accent
      case '`' => Some((C3, 0xB2)) case '\'' => Some((C3, 0xB3)) case '^' => Some((C3, 0xB4))
      case '~' => Some((C3, 0xB5)) case '"' => Some((C3, 0xB6)) case '=' => Some((C5, 0x8D))
      case 'u' => Some((C5, 0x8F))
      case _ => None)
    case 'r' => (match accent
      case '\'' => Some((C5, 0x95)) case 'c' => Some((C5, 0x97)) case 'v' => Some((C5, 0x98))
      case _ => None)
    case 's' => (match accent
      case 's' => Some((C3, 0x9F)) case '\'' => Some((C5, 0x9B)) case '^' => Some((C5, 0x9D))
      case 'c' => Some((C5, 0x9F)) case 'v' => Some((C5, 0xA1))
      case _ => None)
    case 't' => (match accent
      case 'c' => Some((C5, 0xA3)) case 'v' => Some((C5, 0xA5))
      case _ => None)
    case 'u' => (match accent
      case '`' => Some((C3, 0xB9)) case '\'' => Some((C3, 0xBA)) case '^' => Some((C3, 0xBB))
      case '"' => Some((C3, 0xBC)) case '~' => Some((C5, 0xA9)) case '=' => Some((C5, 0xAB))
      case 'u' => Some((C5, 0xAD)) case 'r' => Some((C5, 0xAF)) case 'k' => Some((C5, 0xB3))
      case _ => None)
    case 'w' => if accent == '^' then Some((C5, 0xB5)) else None
    case 'y' => (match accent
      case '\'' => Some((C3, 0xBD)) case '"' => Some((C3, 0xBE)) case '^' => Some((C5, 0xB7))
      case _ => None)
    case 'z' => (match accent
      case '\'' => Some((C5, 0xBA)) case '.' => Some((C5, 0xBC)) case 'v' => Some((C5, 0xBE))
      case _ => None)
    case 'A' => (match accent
      case '`' => Some((C3, 0x80)) case '\'' => Some((C3, 0x81)) case '^' => Some((C3, 0x82))
      case '~' => Some((C3, 0x83)) case '"' => Some((C3, 0x84)) case 'r' => Some((C3, 0x85))
      case '=' => Some((C4, 0x80)) case 'u' => Some((C4, 0x82)) case 'k' => Some((C4, 0x84))
      case _ => None)
    case 'C' => (match accent
      case 'c' => Some((C3, 0x87)) case '\'' => Some((C4, 0x86)) case '^' => Some((C4, 0x88))
      case '.' => Some((C4, 0x8A)) case 'v' => Some((C4, 0x8C))
      case _ => None)
    case 'D' => if accent == 'v' then Some((C4, 0x8E)) else None
    case 'E' => (match accent
      case '`' => Some((C3, 0x88)) case '\'' => Some((C3, 0x89)) case '^' => Some((C3, 0x8A))
      case '"' => Some((C3, 0x8B)) case '=' => Some((C4, 0x92)) case 'u' => Some((C4, 0x94))
      case '.' => Some((C4, 0x96)) case 'k' => Some((C4, 0x98)) case 'v' => Some((C4, 0x9A))
      case _ => None)
    case 'G' => (match accent
      case '^' => Some((C4, 0x9C)) case 'u' => Some((C4, 0x9E)) case '.' => Some((C4, 0xA0))
      case 'c' => Some((C4, 0xA2))
      case _ => None)
    case 'H' => if accent == '^' then Some((C4, 0xA4)) else None
    case 'I' => (match accent
      case '`' => Some((C3, 0x8C)) case '\'' => Some((C3, 0x8D)) case '^' => Some((C3, 0x8E))
      case '"' => Some((C3, 0x8F)) case '~' => Some((C4, 0xA8))
      case _ => None)
    case 'J' => if accent == '^' then Some((C4, 0xB4)) else None
    case 'K' => if accent == 'c' then Some((C4, 0xB6)) else None
    case 'L' => (match accent
      case '\'' => Some((C4, 0xB9)) case 'c' => Some((C4, 0xBB)) case 'v' => Some((C4, 0xBD))
      case _ => None)
    case 'N' => (match accent
      case '~' => Some((C3, 0x91)) case '\'' => Some((C5, 0x83)) case 'c' => Some((C5, 0x85))
      case 'v' => Some((C5, 0x87))
      case _ => None)
    case 'O' => (match accent
      case '`' => Some((C3, 0x92)) case '\'' => Some((C3, 0x93)) case '^' => Some((C3, 0x94))
      case '~' => Some((C3, 0x95)) case '"' => Some((C3, 0x96)) case '=' => Some((C5, 0x8C))
      case 'u' => Some((C5, 0x8E))
      case _ => None)
    case 'R' => (match accent
      case '\'' => Some((C5, 0x94)) case 'c' => Some((C5, 0x96)) case 'v' => Some((C5, 0x98))
      case _ => None)
    case 'S' => (match accent
      case '\'' => Some((C5, 0x9A)) case '^' => Some((C5, 0x9C)) case 'c' => Some((C5, 0x9E))
      case 'v' => Some((C5, 0xA0))
      case _ => None)
    case 'T' => (match accent
      case 'c' => Some((C5, 0xA2)) case 'v' => Some((C5, 0xA4))
      case _ => None)
    case 'U' => (match accent
      case '`' => Some((C3, 0x99)) case '\'' => Some((C3, 0x9A)) case '^' => Some((C3, 0x9B))
      case '"' => Some((C3, 0x9C)) case '~' => Some((C5, 0xA8)) case '=' => Some((C5, 0xAA))
      case 'u' => Some((C5, 0xAC)) case 'r' => Some((C5, 0xAE)) case 'k' => Some((C5, 0xB2))
      case _ => None)
    case 'W' => if accent == '^' then Some((C5, 0xB4)) else None
    case 'Y' => (match accent
      case '\'' => Some((C3, 0x9D)) case '^' => Some((C5, 0xB6)) case '"' => Some((C5, 0xB8))
      case _ => None)
    case 'Z' => (match accent
      case '\'' => Some((C5, 0xB9)) case '.' => Some((C5, 0xBB)) case 'v' => Some((C5, 0xBD))
      case _ => None)
    case _ => None
  }

  /**
   The source's `case 'C'` under a caron: it points `utf8seq` at Č but
   lacks the `break`, so it reaches `default: continue`, keeping the 'C'
   and the pending accent.
   */
  predicate CaronCMissed(letter: char, accent: char)
  {
    letter == 'C' && accent == 'v'
  }

  // ---------------------------------------------------------------------------
  // One step of the scan
  // ---------------------------------------------------------------------------

  /** What a step writes, the bytes left to scan, and the state after it. */
  datatype Turn = Turn(emit: seq<byte>, rest: seq<byte>, st: State)

  /** The buffer, after writing `v` into it, replacing `n` bytes: `str.replace(i, n, cX, 2); ++i; continue`. */
  function Put(s: seq<byte>, n: nat, st: State, l: Buf, v: byte): (r: Turn)
    requires 1 <= n <= |s|
    ensures r.emit == [Lead(l), v] && r.rest == s[n..] && r.st == Write(st, l, v)
  {
    Turn([Lead(l), v], s[n..], Write(st, l, v))
  }

  /**
   A backslash with no accent pending: an accent command is recorded and
   deleted, the commands of ae, AE, d, D, h, H, l, L, o, O, t and T become
   their letter, and any other backslash is kept.
   */
  function Command(s: seq<byte>, st: State): (r: Turn)
    requires |s| > 0 && s[0] == Ch('\\') && st.composing == 0
    ensures |r.rest| < |s|
  {
    var n1 := if |s| > 1 then AsChar(s[1]) else 0 as char;
    var n2 := if |s| > 2 then AsChar(s[2]) else 0 as char;
    if IsAccent(n1) then Turn([], s[2..], st.(composing := s[1]))
    else if n1 == 'a' && n2 == 'e' then Put(s, 3, st, C3, 0xA6)
    else if n1 == 'A' && n2 == 'E' then Put(s, 3, st, C3, 0x86)
    else if n1 == 'd' then Put(s, 2, st, C4, 0x91)
    else if n1 == 'D' then Put(s, 2, st, C4, 0x90)
    else if n1 == 'h' then Put(s, 2, st, C4, 0xA7)
    else if n1 == 'H' && (n2 == '0' || n2 == 'o' || n2 == 'U' || n2 == 'u') then
      var v: byte := if n2 == '0' then 0x90 else if n2 == 'o' then 0x91 else if n2 == 'U' then 0xB0 else 0xB1;
      var t := Put(s, 3, st, C5, v);
      t.(st := t.st.(ptr := Some(C5)))
    else if n1 == 'H' then Put(s, 2, st, C4, 0xA6)
    else if n1 == 'l' then Put(s, 2, st, C5, 0x82)
    else if n1 == 'L' then Put(s, 2, st, C5, 0x81)
    else if n1 == 'o' && n2 == 'e' then Put(s, 3, st, C5, 0x93)
    else if n1 == 'o' then Put(s, 2, st, C3, 0xB8)
    else if n1 == 'O' && n2 == 'E' then Put(s, 3, st, C5, 0x92)
    else if n1 == 'O' then Put(s, 2, st, C3, 0x98)
    else if n1 == 't' then Put(s, 2, st, C5, 0xA5)
    else if n1 == 'T' then Put(s, 2, st, C5, 0xA6)
    else Turn([s[0]], s[1..], st)
  }

  /**
   A backslash while an accent is pending: `\i` becomes the accented
   dotless i (and, in the corrected version, ends the accent); a backslash
   before anything else is replaced, with the byte after it, by whatever
   `utf8seq` points at.
   */
  function PendingBackslash(s: seq<byte>, st: State, corrected: bool): (r: Option<Turn>)
    requires |s| > 0 && s[0] == Ch('\\') && st.composing != 0
    ensures r.Some? ==> |r.value.rest| < |s|
    ensures r.None? <==> (|s| == 1 || s[1] != Ch('i')) && st.ptr.None?
  {
    var n := if |s| > 1 then 2 else 1;
    if |s| > 1 && s[1] == Ch('i') then
      match DotlessI(AsChar(st.composing))
      case None => Some(Turn([s[0]], s[1..], st))
      case Some((l, v)) =>
        var st' := Point(st, l, v);
        Some(Turn([Lead(l), v], s[2..], if corrected then st'.(composing := 0) else st'))
    else
      match st.ptr
      case None => None
      case Some(l) => Some(Turn([Lead(l), Second(st, l)], s[n..], st))
  }

  /** Any other byte: under a pending accent a letter of the table becomes the accented letter. */
  function Letter(s: seq<byte>, st: State, corrected: bool): (r: Turn)
    requires |s| > 0
    ensures r.rest == s[1..]
    ensures st.composing == 0 ==> r == Turn([s[0]], s[1..], st)
  {
    if st.composing == 0 then Turn([s[0]], s[1..], st)
    else
      var letter := AsChar(s[0]);
      var accent := AsChar(st.composing);
      if !corrected && CaronCMissed(letter, accent) then Turn([s[0]], s[1..], Point(st, C4, 0x8C))
      else
        match Composed(letter, accent)
        case None => Turn([s[0]], s[1..], st)
        case Some((l, v)) => Turn([Lead(l), v], s[1..], Point(st, l, v).(composing := 0))
  }

  /** One turn of the loop of `forceUtf8String`, from the scanning position. */
  function Step(s: seq<byte>, st: State, corrected: bool): (r: Option<Turn>)
    requires |s| > 0
    ensures r.Some? ==> |r.value.rest| < |s|
  {
    var b := s[0];
    if IsLead2(b) && |s| > 1 && IsCont(s[1]) then Some(Turn(s[..2], s[2..], st))
    else if IsLead3(b) && |s| > 2 && IsCont(s[1]) && IsCont(s[2]) then Some(Turn(s[..3], s[3..], st))
    else if Legacy(b).Some? then
      var v := Legacy(b).value;
      Some(Turn([0xC3, v], s[1..], Point(st, C3, v).(composing := 0)))
    else if b == 0xC3 then
      var n := if |s| > 1 then 2 else 1;
      Some(Turn(s[..n], s[n..], st))
    else if b == Ch('{') || b == Ch('}') then Some(Turn([], s[1..], st))
    else if b == Ch('\\') && st.composing != 0 then PendingBackslash(s, st, corrected)
    else if b == Ch('\\') then Some(Command(s, st))
    else if b == Ch(' ') && st.composing != 0 then Some(Turn([], s[1..], st))
    else Some(Letter(s, st, corrected))
  }

  /** The scan from the given position to the end. */
  function Run(s: seq<byte>, st: State, corrected: bool): (r: Option<seq<byte>>)
    decreases |s|
  {
    if |s| == 0 then Some([])
    else
      match Step(s, st, corrected)
      case None => None
      case Some(t) =>
        match Run(t.rest, t.st, corrected)
        case None => None
        case Some(u) => Some(t.emit + u)
  }

  /** The scan is the step's bytes followed by the scan of what the step left. */
  lemma RunStep(s: seq<byte>, st: State, corrected: bool, t: Turn, u: seq<byte>, r: seq<byte>)
    requires |s| > 0 && Step(s, st, corrected) == Some(t) && Run(t.rest, t.st, corrected) == Some(u)
    requires r == t.emit + u
    ensures Run(s, st, corrected) == Some(r)
  {
  }

  /** `forceUtf8String` as written. */
  function ForceUtf8String(s: seq<byte>): Option<seq<byte>>
  {
    Run(s, Start, false)
  }

  /** `forceUtf8String` with the accent ended after `\i` and the missing `break` of Č added. */
  function ForceUtf8StringCorrected(s: seq<byte>): Option<seq<byte>>
  {
    Run(s, Start, true)
  }

  // ---------------------------------------------------------------------------
  // Properties
  // ---------------------------------------------------------------------------

  /** Text the rewriter leaves alone: well-formed two- and three-byte sequences and ASCII other than braces and backslash. */
  predicate Clean(s: seq<byte>)
    decreases |s|
  {
    if |s| == 0 then true
    else if IsAscii(s[0]) then s[0] != Ch('{') && s[0] != Ch('}') && s[0] != Ch('\\') && Clean(s[1..])
    else if IsLead2(s[0]) && |s| > 1 && IsCont(s[1]) then Clean(s[2..])
    else if IsLead3(s[0]) && |s| > 2 && IsCont(s[1]) && IsCont(s[2]) then Clean(s[3..])
    else false
  }

  /** Clean text comes back unchanged when no accent is pending, whatever the buffers hold. */
  lemma {:induction false} CleanKept(s: seq<byte>, st: State, corrected: bool)
    requires Clean(s) && st.composing == 0
    ensures Run(s, st, corrected) == Some(s)
    decreases |s|
  {
    if |s| > 0 {
      var t := Step(s, st, corrected).value;
      if IsAscii(s[0]) {
        assert Legacy(s[0]).None?;
        assert t == Turn([s[0]], s[1..], st);
      }
      assert t.st == st && t.emit + t.rest == s;
      CleanKept(t.rest, st, corrected);
    }
  }

  /** The bytes of `s` other than braces. */
  function Unbraced(s: seq<byte>): (r: seq<byte>)
    ensures |r| <= |s|
  {
    if |s| == 0 then []
    else if s[0] == Ch('{') || s[0] == Ch('}') then Unbraced(s[1..])
    else [s[0]] + Unbraced(s[1..])
  }

  /** ASCII text without a backslash loses its braces and nothing else. */
  lemma {:induction false} BracesDeleted(s: seq<byte>, st: State, corrected: bool)
    requires forall i :: 0 <= i < |s| ==> IsAscii(s[i]) && s[i] != Ch('\\')
    requires st.composing == 0
    ensures Run(s, st, corrected) == Some(Unbraced(s))
    decreases |s|
  {
    if |s| > 0 {
      assert IsAscii(s[0]) && s[0] != Ch('\\');
      assert Legacy(s[0]).None? && !IsLead2(s[0]) && !IsLead3(s[0]);
      BracesDeleted(s[1..], st, corrected);
      if s[0] == Ch('{') || s[0] == Ch('}') {
        RunStep(s, st, corrected, Turn([], s[1..], st), Unbraced(s[1..]), Unbraced(s));
      } else {
        RunStep(s, st, corrected, Turn([s[0]], s[1..], st), Unbraced(s[1..]), Unbraced(s));
      }
    }
  }

  /** Hence ASCII text with no brace and no backslash comes back unchanged. */
  lemma AsciiKept(s: seq<byte>)
    requires forall i :: 0 <= i < |s| ==> IsAscii(s[i]) && s[i] != Ch('\\') && s[i] != Ch('{') && s[i] != Ch('}')
    ensures ForceUtf8String(s) == Some(s) && ForceUtf8StringCorrected(s) == Some(s)
  {
    BracesDeleted(s, Start, false);
    BracesDeleted(s, Start, true);
    UnbracedNone(s);
  }

  lemma {:induction false} UnbracedNone(s: seq<byte>)
    requires forall i :: 0 <= i < |s| ==> s[i] != Ch('{') && s[i] != Ch('}')
    ensures Unbraced(s) == s
    decreases |s|
  {
    if |s| > 0 {
      UnbracedNone(s[1..]);
      assert s == [s[0]] + s[1..];
    }
  }

  /** A Windows-1252 é not followed by two continuation bytes becomes C3 A9, and ends a pending accent. */
  lemma IsolatedE9(t: seq<byte>, st: State, corrected: bool)
    requires !(|t| > 1 && IsCont(t[0]) && IsCont(t[1]))
    ensures Step([0xE9] + t, st, corrected) == Some(Turn([0xC3, 0xA9], t, Point(st, C3, 0xA9).(composing := 0)))
  {
    var s := [0xE9] + t;
    assert s[1..] == t;
  }

  lemma E9Alone()
    ensures ForceUtf8String([0xE9]) == Some([0xC3, 0xA9])
  {
    IsolatedE9([], Start, false);
    assert [0xE9] + [] == [0xE9 as byte];
    RunStep([0xE9], Start, false, Turn([0xC3, 0xA9], [], Point(Start, C3, 0xA9).(composing := 0)), [], [0xC3, 0xA9]);
  }

  /** `\'` is deleted and remembered; the 'e' after it becomes é (C3 A9) and the accent is no longer pending. */
  lemma AcuteE(t: seq<byte>, st: State, corrected: bool)
    requires st.composing == 0
    ensures var s := [Ch('\\'), Ch('\'')] + t;
            Step(s, st, corrected) == Some(Turn([], t, st.(composing := Ch('\''))))
    ensures var s := [Ch('e')] + t;
            var st' := st.(composing := Ch('\''));
            Step(s, st', corrected) == Some(Turn([0xC3, 0xA9], t, Point(st', C3, 0xA9).(composing := 0)))
  {
    assert ([Ch('\\'), Ch('\'')] + t)[2..] == t;
    assert ([Ch('e')] + t)[1..] == t;
  }

  /** `\ae` becomes æ (C3 A6). */
  lemma LigatureAe(t: seq<byte>, st: State, corrected: bool)
    requires st.composing == 0
    ensures Step([Ch('\\'), Ch('a'), Ch('e')] + t, st, corrected) == Some(Turn([0xC3, 0xA6], t, Write(st, C3, 0xA6)))
  {
    assert ([Ch('\\'), Ch('a'), Ch('e')] + t)[3..] == t;
  }

  /** `\o` becomes ø (C3 B8), but œ (C5 93) when an 'e' follows. */
  lemma SlashedO(t: seq<byte>, st: State, corrected: bool)
    requires st.composing == 0
    ensures Step([Ch('\\'), Ch('o'), Ch('e')] + t, st, corrected) == Some(Turn([0xC5, 0x93], t, Write(st, C5, 0x93)))
    ensures |t| == 0 || t[0] != Ch('e') ==>
              Step([Ch('\\'), Ch('o')] + t, st, corrected) == Some(Turn([0xC3, 0xB8], t, Write(st, C3, 0xB8)))
  {
    assert ([Ch('\\'), Ch('o'), Ch('e')] + t)[3..] == t;
    assert ([Ch('\\'), Ch('o')] + t)[2..] == t;
  }

  /** While an accent is pending, a space is deleted and the accent stays pending. */
  lemma SpaceWhilePending(t: seq<byte>, st: State, corrected: bool)
    requires st.composing != 0
    ensures Step([Ch(' ')] + t, st, corrected) == Some(Turn([], t, st))
  {
    assert ([Ch(' ')] + t)[1..] == t;
  }

  // ---------------------------------------------------------------------------
  // The two defects
  // ---------------------------------------------------------------------------

  /** `\'{\i}e`: the bytes of the BibTeX spelling of "íe". */
  const AcuteDotlessIE: seq<byte> := [0x5C, 0x27, 0x7B, 0x5C, 0x69, 0x7D, 0x65]

  /** As written, the accent stays pending after `\i`, so the following 'e' becomes é too. */
  lemma DotlessIAsWritten()
    ensures ForceUtf8String(AcuteDotlessIE) == Some([0xC3, 0xAD, 0xC3, 0xA9])
  {
    var s := AcuteDotlessIE;
    var st1 := Start.(composing := 0x27);
    var st2 := Point(st1, C3, 0xAD);
    var st3 := Point(st2, C3, 0xA9).(composing := 0);
    RunStep(s[6..], st2, false, Turn([0xC3, 0xA9], [], st3), [], [0xC3, 0xA9]);
    RunStep(s[5..], st2, false, Turn([], s[6..], st2), [0xC3, 0xA9], [0xC3, 0xA9]);
    RunStep(s[3..], st1, false, Turn([0xC3, 0xAD], s[5..], st2), [0xC3, 0xA9], [0xC3, 0xAD, 0xC3, 0xA9]);
    RunStep(s[2..], st1, false, Turn([], s[3..], st1), [0xC3, 0xAD, 0xC3, 0xA9], [0xC3, 0xAD, 0xC3, 0xA9]);
    RunStep(s, Start, false, Turn([], s[2..], st1), [0xC3, 0xAD, 0xC3, 0xA9], [0xC3, 0xAD, 0xC3, 0xA9]);
  }

  /** Corrected, `\'{\i}e` gives "íe". */
  lemma DotlessICorrected()
    ensures ForceUtf8StringCorrected(AcuteDotlessIE) == Some([0xC3, 0xAD, 0x65])
  {
    var s := AcuteDotlessIE;
    var st1 := Start.(composing := 0x27);
    var st2 := Point(st1, C3, 0xAD).(composing := 0);
    RunStep(s[6..], st2, true, Turn([0x65], [], st2), [], [0x65]);
    RunStep(s[5..], st2, true, Turn([], s[6..], st2), [0x65], [0x65]);
    RunStep(s[3..], st1, true, Turn([0xC3, 0xAD], s[5..], st2), [0x65], [0xC3, 0xAD, 0x65]);
    RunStep(s[2..], st1, true, Turn([], s[3..], st1), [0xC3, 0xAD, 0x65], [0xC3, 0xAD, 0x65]);
    RunStep(s, Start, true, Turn([], s[2..], st1), [0xC3, 0xAD, 0x65], [0xC3, 0xAD, 0x65]);
  }

  /** In the corrected scan, no accent is left pending after `\i` has been composed. */
  lemma DotlessIEndsAccent(s: seq<byte>, st: State)
    requires |s| > 1 && s[0] == Ch('\\') && s[1] == Ch('i') && st.composing != 0
    requires DotlessI(AsChar(st.composing)).Some?
    ensures var t := Step(s, st, true); t.Some? && t.value.st.composing == 0 && |t.value.emit| == 2
  {
  }

  /** `\vCe`: the bytes of the BibTeX spelling of "Če". */
  const CaronCE: seq<byte> := [0x5C, 0x76, 0x43, 0x65]

  /** As written, the 'C' is kept and the caron lands on the 'e': "Cě". */
  lemma CaronCAsWritten()
    ensures ForceUtf8String(CaronCE) == Some([0x43, 0xC4, 0x9B])
  {
    var s := CaronCE;
    var st1 := Start.(composing := 0x76);
    var st2 := Point(st1, C4, 0x8C);
    var st3 := Point(st2, C4, 0x9B).(composing := 0);
    RunStep(s[3..], st2, false, Turn([0xC4, 0x9B], [], st3), [], [0xC4, 0x9B]);
    RunStep(s[2..], st1, false, Turn([0x43], s[3..], st2), [0xC4, 0x9B], [0x43, 0xC4, 0x9B]);
    RunStep(s, Start, false, Turn([], s[2..], st1), [0x43, 0xC4, 0x9B], [0x43, 0xC4, 0x9B]);
  }

  /** Corrected, `\vCe` gives "Če" (C4 8C, then 'e'). */
  lemma CaronCCorrected()
    ensures ForceUtf8StringCorrected(CaronCE) == Some([0xC4, 0x8C, 0x65])
  {
    var s := CaronCE;
    var st1 := Start.(composing := 0x76);
    var st2 := Point(st1, C4, 0x8C).(composing := 0);
    RunStep(s[3..], st2, true, Turn([0x65], [], st2), [], [0x65]);
    RunStep(s[2..], st1, true, Turn([0xC4, 0x8C], s[3..], st2), [0x65], [0xC4, 0x8C, 0x65]);
    RunStep(s, Start, true, Turn([], s[2..], st1), [0xC4, 0x8C, 0x65], [0xC4, 0x8C, 0x65]);
  }

  /** In the corrected scan every letter of the table under its accent is composed and ends the accent. */
  lemma ComposedLetter(s: seq<byte>, st: State)
    requires |s| > 0 && st.composing != 0 && Composed(AsChar(s[0]), AsChar(st.composing)).Some?
    requires s[0] < 0x80 && s[0] != Ch('{') && s[0] != Ch('}') && s[0] != Ch('\\') && s[0] != Ch(' ')
    ensures var t := Step(s, st, true);
            var c := Composed(AsChar(s[0]), AsChar(st.composing)).value;
            t == Some(Turn([Lead(c.0), c.1], s[1..], Point(st, c.0, c.1).(composing := 0)))
  {
    assert Legacy(s[0]).None?;
  }

  /** A backslash before anything but `i` while an accent is pending, before any letter was produced, uses the stale pointer. */
  lemma StalePointer()
    ensures ForceUtf8String([0x5C, 0x27, 0x5C, 0x78]) == None
  {
    var s: seq<byte> := [0x5C, 0x27, 0x5C, 0x78];
    var st1 := Start.(composing := 0x27);
    assert Step(s[2..], st1, false) == None;
    assert Step(s, Start, false) == Some(Turn([], s[2..], st1));
  }
}
