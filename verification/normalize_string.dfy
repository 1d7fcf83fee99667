/**
 The key normalisation of NormalizeString.cpp, used by the BibTeX import:
 a two-byte UTF-8 letter of the Latin-1 Supplement or Latin Extended-A
 blocks (lead byte C3, C4 or C5) becomes one ASCII letter; every other
 byte is kept. The function scans the string once, left to right, and a
 rewritten pair is not looked at again.
 */
module NormalizeString {
  import opened Wrappers
  import opened Bytes

  /** The letter for a second byte after the lead C3 (the six forms of A are apart, see `Normalize`). */
  function StripC3(b: byte): (r: Option<char>)
    ensures r.Some? ==> 'A' <= r.value <= 'Z' || 'a' <= r.value <= 'z'
    ensures r.Some? ==> 0x88 <= b <= 0xBE
  {
    if 0x88 <= b <= 0x8B then Some('E')
    else if 0x8C <= b <= 0x8F then Some('I')
    else if b == 0x91 then Some('N')
    else if 0x92 <= b <= 0x96 || b == 0x98 then Some('O')
    else if 0x99 <= b <= 0x9C then Some('U')
    else if b == 0x9D then Some('Y')
    else if b == 0x9F then Some('s')
    else if 0xA0 <= b <= 0xA5 then Some('a')
    else if b == 0xA7 then Some('c')
    else if 0xA8 <= b <= 0xAB then Some('e')
    else if 0xAC <= b <= 0xAF then Some('i')
    else if b == 0xB1 then Some('n')
    else if 0xB2 <= b <= 0xB6 || b == 0xB8 then Some('o')
    else if 0xB9 <= b <= 0xBC then Some('u')
    else if b == 0xBD || b == 0xBE then Some('y')
    else None
  }

  /** The letter for a second byte after the lead C4; Ĺ, Ļ and Ľ give 'G' in the source. */
  function StripC4(b: byte): (r: Option<char>)
    ensures r.Some? ==> 'A' <= r.value <= 'Z' || 'a' <= r.value <= 'z'
    ensures r.Some? ==> 0x80 <= b <= 0xBE
  {
    if b == 0x80 || b == 0x82 || b == 0x84 then Some('A')
    else if b == 0x81 || b == 0x83 || b == 0x85 then Some('a')
    else if b == 0x86 || b == 0x88 || b == 0x8A || b == 0x8C then Some('C')
    else if b == 0x87 || b == 0x89 || b == 0x8B || b == 0x8D then Some('c')
    else if b == 0x8E || b == 0x90 then Some('D')
    else if b == 0x8F || b == 0x91 then Some('d')
    else if b == 0x92 || b == 0x94 || b == 0x96 || b == 0x98 || b == 0x9A then Some('E')
    else if b == 0x93 || b == 0x95 || b == 0x97 || b == 0x99 || b == 0x9B then Some('e')
    else if b == 0x9C || b == 0x9E || b == 0xA0 || b == 0xA2 then Some('G')
    else if b == 0x9D || b == 0x9F || b == 0xA1 || b == 0xA3 then Some('g')
    else if b == 0xA5 || b == 0xA7 then Some('h')
    else if b == 0xA4 || b == 0xA6 then Some('H')
    else if b == 0xA8 then Some('I')
    else if b == 0xA9 || b == 0xAB || b == 0xAD then Some('i')
    else if b == 0xB4 then Some('J')
    else if b == 0xB5 then Some('j')
    else if b == 0xB6 then Some('K')
    else if b == 0xB8 then Some('k')
    else if b == 0xB9 || b == 0xBB || b == 0xBD then Some('G')
    else if b == 0xBA || b == 0xBC || b == 0xBE then Some('l')
    else None
  }

  /** The character for a second byte after the lead C5; Ő gives the digit '0' in the source. */
  function StripC5(b: byte): (r: Option<char>)
    ensures r.Some? ==> 'A' <= r.value <= 'Z' || 'a' <= r.value <= 'z' || r.value == '0'
    ensures r.Some? ==> 0x81 <= b <= 0xBE
  {
    if b == 0x81 then Some('L')
    else if b == 0x82 then Some('l')
    else if b == 0x84 || b == 0x86 || b == 0x88 then Some('n')
    else if b == 0x8D || b == 0x8F || b == 0x91 then Some('o')
    else if b == 0x90 then Some('0')
    else if b == 0x95 || b == 0x97 || b == 0x98 then Some('r')
    else if b == 0x9B || b == 0x9D || b == 0x9F || b == 0xA1 then Some('s')
    else if b == 0xA3 || b == 0xA5 then Some('t')
    else if b == 0xA6 then Some('T')
    else if b == 0xA9 || b == 0xAB || b == 0xAD || b == 0xAF || b == 0xB1 || b == 0xB3 then Some('u')
    else if b == 0xB0 then Some('U')
    else if b == 0xB5 then Some('w')
    else if b == 0xB7 then Some('y')
    else if b == 0xBA || b == 0xBC || b == 0xBE then Some('z')
    else None
  }

  /** The ASCII character a lead byte and its follower are rewritten to, if any. */
  function Strip(lead: byte, b: byte): (r: Option<char>)
    ensures r.Some? ==> (lead == 0xC3 || lead == 0xC4 || lead == 0xC5) && 0x80 <= b < 0xC0
    ensures r.Some? ==> r.value as int < 128
  {
    if lead == 0xC3 then StripC3(b)
    else if lead == 0xC4 then StripC4(b)
    else if lead == 0xC5 then StripC5(b)
    else None
  }

  /** À to Å: the first replacement by "A" falls through to the replacement by "E", which takes the byte after the pair too. */
  predicate FallsThrough(lead: byte, b: byte)
  {
    lead == 0xC3 && 0x80 <= b <= 0x85
  }

  /**
   `normalizeString`, on the rest of the string from the scanning
   position: the last byte is never a lead, since the loop stops before it.
   */
  function Normalize(s: seq<byte>): (r: seq<byte>)
    ensures |r| <= |s|
    ensures |s| <= 1 ==> r == s
    decreases |s|
  {
    if |s| <= 1 then s
    else if FallsThrough(s[0], s[1]) then
      [Ch('E')] + Normalize(if |s| >= 3 then s[3..] else [])
    else
      match Strip(s[0], s[1])
      case Some(c) => [Ch(c)] + Normalize(s[2..])
      case None => [s[0]] + Normalize(s[1..])
  }

  /** A byte where the scan can rewrite: a lead C3, C4 or C5 that is not the last byte. */
  predicate HasLead(s: seq<byte>)
  {
    exists i :: 0 <= i < |s| - 1 && (s[i] == 0xC3 || s[i] == 0xC4 || s[i] == 0xC5)
  }

  /** Without a lead byte to rewrite, every byte is kept: in particular ASCII text comes back unchanged. */
  lemma {:induction false} NormalizeKeeps(s: seq<byte>)
    ensures !HasLead(s) ==> Normalize(s) == s
    decreases |s|
  {
    if |s| > 1 && !HasLead(s) {
      assert s[0] != 0xC3 && s[0] != 0xC4 && s[0] != 0xC5;
      assert !HasLead(s[1..]) by {
        forall i | 0 <= i < |s[1..]| - 1 ensures s[1..][i] != 0xC3 && s[1..][i] != 0xC4 && s[1..][i] != 0xC5 {
          assert s[1..][i] == s[i + 1];
        }
      }
      NormalizeKeeps(s[1..]);
      assert s == [s[0]] + s[1..];
    }
  }

  lemma AsciiKept(s: seq<byte>)
    requires forall i :: 0 <= i < |s| ==> IsAscii(s[i])
    ensures Normalize(s) == s
  {
    NormalizeKeeps(s);
  }

  /** Every byte of the result is ASCII or a byte of the input. */
  lemma {:induction false} NormalizeBytes(s: seq<byte>)
    ensures forall b :: b in Normalize(s) ==> IsAscii(b) || b in s
    decreases |s|
  {
    if |s| > 1 {
      var t := if FallsThrough(s[0], s[1]) then (if |s| >= 3 then s[3..] else [])
               else if Strip(s[0], s[1]).Some? then s[2..] else s[1..];
      NormalizeBytes(t);
      forall b | b in t ensures b in s {
        var k :| 0 <= k < |t| && t[k] == b;
        assert b == s[|s| - |t| + k];
      }
    }
  }

  /** A rewritten pair followed by the rest: the rest is normalised on its own. */
  lemma StripPair(lead: byte, b: byte, t: seq<byte>)
    requires Strip(lead, b).Some? && !FallsThrough(lead, b)
    ensures Normalize([lead, b] + t) == [Ch(Strip(lead, b).value)] + Normalize(t)
  {
    assert ([lead, b] + t)[2..] == t;
  }

  /** 'é' becomes 'e' and 'ñ' becomes 'n'. */
  lemma LowerCaseAccents(t: seq<byte>)
    ensures Normalize([0xC3, 0xA9] + t) == [Ch('e')] + Normalize(t)
    ensures Normalize([0xC3, 0xB1] + t) == [Ch('n')] + Normalize(t)
  {
    StripPair(0xC3, 0xA9, t);
    StripPair(0xC3, 0xB1, t);
  }

  /** A quirk of the table: Ő becomes the digit '0'. */
  lemma DoubleAcuteOQuirk(t: seq<byte>)
    ensures Normalize([0xC5, 0x90] + t) == [Ch('0')] + Normalize(t)
  {
    StripPair(0xC5, 0x90, t);
  }

  /** A quirk of the table: Ĺ, Ļ and Ľ become 'G'. */
  lemma CapitalLQuirk(b: byte, t: seq<byte>)
    requires b == 0xB9 || b == 0xBB || b == 0xBD
    ensures Normalize([0xC4, b] + t) == [Ch('G')] + Normalize(t)
  {
    StripPair(0xC4, b, t);
  }

  /** À to Å become 'E' and swallow the byte that follows them; at the end of the string they become 'E'. */
  lemma FallThroughSwallows(b: byte, x: byte, t: seq<byte>)
    requires 0x80 <= b <= 0x85
    ensures Normalize([0xC3, b, x] + t) == [Ch('E')] + Normalize(t)
    ensures Normalize([0xC3, b]) == [Ch('E')]
  {
    assert ([0xC3, b, x] + t)[3..] == t;
  }

  /** `size() - 1` on an unsigned 64-bit size. */
  const SizeModulus: int := 0x1_0000_0000_0000_0000

  /**
   One turn of the loop at position `k`: the pair at `k` replaced in place
   (twice for the forms of A), or nothing changed.
   */
  function Rewrite(s: seq<byte>, k: nat): (r: seq<byte>)
    requires k + 1 < |s|
    ensures k < |r| && r[..k] == s[..k]
    ensures [r[k]] + Normalize(r[k + 1..]) == Normalize(s[k..])
  {
    var rest := s[k..];
    assert rest[0] == s[k] && rest[1] == s[k + 1];
    if FallsThrough(s[k], s[k + 1]) then
      var a := s[..k] + [Ch('A')] + s[k + 2..];
      var e := a[..k] + [Ch('E')] + (if k + 2 <= |a| then a[k + 2..] else []);
      assert e[k + 1..] == (if |rest| >= 3 then rest[3..] else []);
      e
    else if Strip(s[k], s[k + 1]).Some? then
      var r := s[..k] + [Ch(Strip(s[k], s[k + 1]).value)] + s[k + 2..];
      assert r[k + 1..] == rest[2..];
      r
    else
      assert s[k + 1..] == rest[1..];
      s
  }

  lemma RewriteKeeps(key: seq<byte>, s: seq<byte>, k: nat)
    requires k + 1 < |s| && s[..k] + Normalize(s[k..]) == Normalize(key)
    ensures var t := Rewrite(s, k); k + 1 <= |t| && t[..k + 1] + Normalize(t[k + 1..]) == Normalize(key)
  {
    var t := Rewrite(s, k);
    assert t[..k + 1] == s[..k] + [t[k]];
  }

  lemma FinishKeeps(key: seq<byte>, s: seq<byte>, k: nat)
    requires k <= |s| && k >= |s| - 1 && s[..k] + Normalize(s[k..]) == Normalize(key)
    ensures s == Normalize(key)
  {
    assert s[..k] + s[k..] == s;
  }

  /**
   The loop of `normalizeString` over the string, replacing in place. For
   the empty string the bound `size() - 1` wraps around and the loop reads
   past the end: the result is then `None`.
   */
  method NormalizeStringAsWritten(key: seq<byte>) returns (r: Option<seq<byte>>)
    ensures r.None? <==> |key| == 0
    ensures r.Some? ==> r.value == Normalize(key)
  {
    var bound := (|key| - 1) % SizeModulus;
    if bound >= |key| {
      return None;
    }
    var s := key;
    var k := 0;
    while k < |s| - 1
      invariant 0 <= k <= |s|
      invariant s[..k] + Normalize(s[k..]) == Normalize(key)
      decreases |s| - k
    {
      RewriteKeeps(key, s, k);
      s, k := Rewrite(s, k), k + 1;
    }
    FinishKeeps(key, s, k);
    return Some(s);
  }
}
