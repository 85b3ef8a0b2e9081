/**
 * The string and byte operations the synchronizer relies on: Python's
 * slice `s[:n]`, `unicode.strip()` and `binascii.b2a_hex`.
 */
module Text {

  /** A byte of a binary payload. */
  type byte = x: int | 0 <= x < 256

  /** The characters Python 2's `unicode.strip()` removes (those for which `isspace()` holds). */
  const Spaces: set<char> := {
    '\U{9}', '\U{A}', '\U{B}', '\U{C}', '\U{D}',
    '\U{1C}', '\U{1D}', '\U{1E}', '\U{1F}', '\U{20}', '\U{85}', '\U{A0}', '\U{1680}', '\U{180E}',
    '\U{2000}', '\U{2001}', '\U{2002}', '\U{2003}', '\U{2004}', '\U{2005}',
    '\U{2006}', '\U{2007}', '\U{2008}', '\U{2009}', '\U{200A}',
    '\U{2028}', '\U{2029}', '\U{202F}', '\U{205F}', '\U{3000}'
  }

  predicate IsSpace(c: char)
  {
    c in Spaces
  }

  /** Python's `s[:n]`: the first `n` characters, or all of `s` when it is shorter. */
  function Truncate(s: string, n: nat): (r: string)
    ensures |r| == if |s| < n then |s| else n
    ensures r == s[..|r|]
  {
    if |s| <= n then s else s[..n]
  }

  /** Python's `s.lstrip()`. */
  function StripLeft(s: string): (r: string)
    ensures |r| <= |s| && r == s[|s| - |r|..]
    ensures AllSpace(s[..|s| - |r|])
    ensures r == [] || !IsSpace(r[0])
  {
    if s != [] && IsSpace(s[0]) then StripLeft(s[1..]) else s
  }

  /** Python's `s.rstrip()`. */
  function StripRight(s: string): (r: string)
    ensures |r| <= |s| && r == s[..|r|]
    ensures AllSpace(s[|r|..])
    ensures r == [] || !IsSpace(r[|r| - 1])
  {
    if s != [] && IsSpace(s[|s| - 1]) then StripRight(s[..|s| - 1]) else s
  }

  /** Python's `s.strip()`: what remains neither starts nor ends with whitespace. */
  function Strip(s: string): (r: string)
    ensures |r| <= |s|
    ensures r == [] || (!IsSpace(r[0]) && !IsSpace(r[|r| - 1]))
  {
    var l := StripLeft(s);
    var r := StripRight(l);
    assert l != [] ==> r == [] || r[0] == l[0];
    r
  }

  predicate AllSpace(s: string)
  {
    forall i :: 0 <= i < |s| ==> IsSpace(s[i])
  }

  /** Stripping removes exactly the whitespace around a core that starts and ends with non-space. */
  lemma {:induction false} StripFramed(lead: string, core: string, trail: string)
    requires AllSpace(lead) && AllSpace(trail)
    requires core != [] && !IsSpace(core[0]) && !IsSpace(core[|core| - 1])
    ensures Strip(lead + core + trail) == core
  {
    var rest := core + trail;
    assert rest[0] == core[0];
    assert lead + core + trail == lead + rest;
    StripLeftFramed(lead, rest);
    StripRightFramed(core, trail);
    assert Strip(lead + rest) == StripRight(StripLeft(lead + rest));
  }

  /** A string of whitespace only strips to nothing. */
  lemma StripAllSpace(s: string)
    requires AllSpace(s)
    ensures Strip(s) == []
  {
  }

  lemma {:induction false} StripLeftFramed(lead: string, rest: string)
    requires AllSpace(lead)
    requires rest != [] && !IsSpace(rest[0])
    ensures StripLeft(lead + rest) == rest
    decreases |lead|
  {
    var s := lead + rest;
    if lead == [] {
      assert s == rest;
    } else {
      assert s[0] == lead[0];
      assert s[1..] == lead[1..] + rest;
      StripLeftFramed(lead[1..], rest);
    }
  }

  lemma {:induction false} StripRightFramed(body: string, trail: string)
    requires AllSpace(trail)
    requires body != [] && !IsSpace(body[|body| - 1])
    ensures StripRight(body + trail) == body
    decreases |trail|
  {
    if trail == [] {
      assert body + trail == body;
    } else {
      var t := trail[..|trail| - 1];
      assert (body + trail)[..|body + trail| - 1] == body + t;
      StripRightFramed(body, t);
    }
  }

  predicate IsHexDigit(c: char)
  {
    ('0' <= c <= '9') || ('a' <= c <= 'f')
  }

  /** The lower-case hexadecimal digit for `d`. */
  function HexDigit(d: nat): (c: char)
    requires d < 16
    ensures IsHexDigit(c)
  {
    if d < 10 then (48 + d) as char else (87 + d) as char
  }

  /** The value of a hexadecimal digit; the inverse of HexDigit. */
  function DigitValue(c: char): (d: nat)
    requires IsHexDigit(c)
    ensures d < 16 && HexDigit(d) == c
  {
    if c <= '9' then c as int - 48 else c as int - 87
  }

  /** `binascii.b2a_hex`: two lower-case hexadecimal digits per byte, high nibble first. */
  function Hex(b: seq<byte>): (h: string)
    ensures |h| == 2 * |b|
    ensures forall i :: 0 <= i < |h| ==> IsHexDigit(h[i])
  {
    if b == [] then [] else [HexDigit(b[0] / 16), HexDigit(b[0] % 16)] + Hex(b[1..])
  }

  /** `binascii.a2b_hex` on well-formed input: the bytes a hexadecimal string spells. */
  function Unhex(h: string): (b: seq<byte>)
    requires |h| % 2 == 0
    requires forall i :: 0 <= i < |h| ==> IsHexDigit(h[i])
    ensures |b| == |h| / 2
  {
    if h == [] then [] else [16 * DigitValue(h[0]) + DigitValue(h[1])] + Unhex(h[2..])
  }

  /** Decoding the hexadecimal form of a byte string gives the byte string back. */
  lemma {:induction false} UnhexHex(b: seq<byte>)
    ensures Unhex(Hex(b)) == b
  {
    if b != [] {
      var h := Hex(b);
      assert h[2..] == Hex(b[1..]);
      assert DigitValue(h[0]) == b[0] / 16 && DigitValue(h[1]) == b[0] % 16;
      UnhexHex(b[1..]);
    }
  }

  /** Two byte strings have the same hexadecimal form exactly when they are equal. */
  lemma HexInjective(a: seq<byte>, b: seq<byte>)
    ensures Hex(a) == Hex(b) <==> a == b
  {
    UnhexHex(a);
    UnhexHex(b);
  }
}
