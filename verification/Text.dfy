/** Splitting and hexadecimal parsing as the Rust string functions do them. */
module Text {
  import opened Common

  /** `s.split(c)`: one piece more than there are separators. */
  function Split(s: string, c: char): (pieces: seq<string>)
    ensures |pieces| >= 1
  {
    if s == [] then [[]]
    else if s[0] == c then [[]] + Split(s[1..], c)
    else
      var rest := Split(s[1..], c);
      [[s[0]] + rest[0]] + rest[1..]
  }

  lemma {:induction false} SplitAtFirst(a: string, c: char, b: string)
    requires c !in a
    ensures Split(a + [c] + b, c) == [a] + Split(b, c)
  {
    var s := a + [c] + b;
    if a == [] {
      assert s[1..] == b;
    } else {
      assert s[0] == a[0] && s[1..] == a[1..] + [c] + b;
      SplitAtFirst(a[1..], c, b);
      assert a == [a[0]] + a[1..];
    }
  }

  lemma {:induction false} SplitNothing(a: string, c: char)
    requires c !in a
    ensures Split(a, c) == [a]
  {
    if a != [] {
      SplitNothing(a[1..], c);
      assert a == [a[0]] + a[1..];
    }
  }

  /** `s.split_once(c)`. */
  function SplitOnce(s: string, c: char): Option<(string, string)> {
    if s == [] then None
    else if s[0] == c then Some(([], s[1..]))
    else
      match SplitOnce(s[1..], c)
      case None => None
      case Some((a, b)) => Some(([s[0]] + a, b))
  }

  lemma {:induction false} SplitOnceAtFirst(a: string, c: char, b: string)
    requires c !in a
    ensures SplitOnce(a + [c] + b, c) == Some((a, b))
  {
    var s := a + [c] + b;
    if a == [] {
      assert s[1..] == b;
    } else {
      assert s[0] == a[0] && s[1..] == a[1..] + [c] + b;
      SplitOnceAtFirst(a[1..], c, b);
      assert a == [a[0]] + a[1..];
    }
  }

  lemma {:induction false} SplitOnceNothing(a: string, c: char)
    requires c !in a
    ensures SplitOnce(a, c) == None
  {
    if a != [] {
      SplitOnceNothing(a[1..], c);
    }
  }

  function Join(pieces: seq<string>, c: char): string {
    if pieces == [] then []
    else if |pieces| == 1 then pieces[0]
    else pieces[0] + [c] + Join(pieces[1..], c)
  }

  lemma {:induction false} SplitJoin(pieces: seq<string>, c: char)
    requires pieces != [] && forall i :: 0 <= i < |pieces| ==> c !in pieces[i]
    ensures Split(Join(pieces, c), c) == pieces
  {
    if |pieces| == 1 {
      SplitNothing(pieces[0], c);
    } else {
      SplitJoin(pieces[1..], c);
      SplitAtFirst(pieces[0], c, Join(pieces[1..], c));
      assert pieces == [pieces[0]] + pieces[1..];
    }
  }

  lemma {:induction false} JoinAvoids(pieces: seq<string>, c: char, avoid: char)
    requires c != avoid && forall i :: 0 <= i < |pieces| ==> avoid !in pieces[i]
    ensures avoid !in Join(pieces, c)
  {
    if |pieces| > 1 {
      JoinAvoids(pieces[1..], c, avoid);
    }
  }

  lemma {:induction false} JoinAppend(a: seq<string>, b: seq<string>, c: char)
    requires a != [] && b != []
    ensures Join(a + b, c) == Join(a, c) + ([c] + Join(b, c))
  {
    if |a| == 1 {
      assert (a + b)[1..] == b && (a + b)[0] == a[0];
      assert a[0] + [c] + Join(b, c) == a[0] + ([c] + Join(b, c));
    } else {
      assert (a + b)[1..] == a[1..] + b && (a + b)[0] == a[0];
      JoinAppend(a[1..], b, c);
      assert a[0] + [c] + (Join(a[1..], c) + ([c] + Join(b, c))) == a[0] + [c] + Join(a[1..], c) + ([c] + Join(b, c));
    }
  }

  // ----- Hexadecimal

  function HexValue(c: char): Option<nat> {
    if '0' <= c <= '9' then Some((c - '0') as int)
    else if 'a' <= c <= 'f' then Some((c - 'a') as int + 10)
    else if 'A' <= c <= 'F' then Some((c - 'A') as int + 10)
    else None
  }

  predicate IsHexDigit(c: char) { HexValue(c).Some? }

  function HexDigit(n: nat): char
    requires n < 16
  {
    "0123456789ABCDEF"[n]
  }

  lemma HexDigitValue(n: nat)
    requires n < 16
    ensures HexValue(HexDigit(n)) == Some(n)
  {
    if n == 0 {} else if n == 1 {} else if n == 2 {} else if n == 3 {}
    else if n == 4 {} else if n == 5 {} else if n == 6 {} else if n == 7 {}
    else if n == 8 {} else if n == 9 {} else if n == 10 {} else if n == 11 {}
    else if n == 12 {} else if n == 13 {} else if n == 14 {} else {}
  }

  /** Digits of either case, and nothing else. */
  lemma HexValues(c: char)
    ensures HexValue(c).Some? <==> c in "0123456789abcdefABCDEF"
    ensures forall n :: 0 <= n < 16 ==>
              (HexValue(c) == Some(n) <==> c == "0123456789abcdef"[n] || c == "0123456789ABCDEF"[n])
  {
  }

  function DigitsValue(s: string): Option<nat> {
    if s == [] then Some(0)
    else
      match (DigitsValue(s[..|s| - 1]), HexValue(s[|s| - 1]))
      case (Some(high), Some(low)) => Some(16 * high + low)
      case _ => None
  }

  /** `uN::from_str_radix(s, 16)`: an optional plus sign, then at least one digit, and no overflow. */
  function ParseHex(s: string, max: nat): (v: Option<nat>)
    ensures v.Some? ==> v.value <= max
  {
    var digits := if s != [] && s[0] == '+' then s[1..] else s;
    if digits == [] then None
    else
      match DigitsValue(digits)
      case Some(v) => if v <= max then Some(v) else None
      case None => None
  }

  /** `%0nX`. */
  function Hex(v: nat, width: nat): (s: string)
    ensures |s| == width
  {
    if width == 0 then [] else Hex(v / 16, width - 1) + [HexDigit(v % 16)]
  }

  function Power16(n: nat): nat { if n == 0 then 1 else 16 * Power16(n - 1) }

  lemma {:induction false} HexDigitsAreHex(v: nat, width: nat)
    ensures forall i :: 0 <= i < width ==> IsHexDigit(Hex(v, width)[i])
  {
    if width > 0 {
      HexDigitsAreHex(v / 16, width - 1);
      HexDigitValue(v % 16);
    }
  }

  lemma {:induction false} HexDigitsValue(v: nat, width: nat)
    requires v < Power16(width)
    ensures DigitsValue(Hex(v, width)) == Some(v)
  {
    if width > 0 {
      var high, low := v / 16, v % 16;
      HexDigitsValue(high, width - 1);
      HexDigitValue(low);
      OneMoreDigit(Hex(high, width - 1), HexDigit(low));
    }
  }

  lemma OneMoreDigit(s: string, c: char)
    requires DigitsValue(s).Some? && HexValue(c).Some?
    ensures DigitsValue(s + [c]) == Some(16 * DigitsValue(s).value + HexValue(c).value)
  {
    assert (s + [c])[..|s|] == s;
  }

  /** One plus sign is read over. */
  lemma PlusIsReadOver(s: string, max: nat)
    requires s == [] || s[0] != '+'
    ensures ParseHex(['+'] + s, max) == ParseHex(s, max)
  {
    hide DigitsValue;
    assert (['+'] + s)[1..] == s;
  }

  /** Digits give their number, unless it is beyond the bound; no digits give none. */
  lemma ParseHexExactly(v: nat, width: nat, max: nat)
    requires v < Power16(width) && width > 0
    ensures ParseHex(Hex(v, width), max) == if v <= max then Some(v) else None
    ensures ParseHex([], max) == None
  {
    HexDigitsValue(v, width);
    HexDigitsAreHex(v, width);
    assert IsHexDigit(Hex(v, width)[0]);
    hide DigitsValue, Hex;
  }

  lemma ParseHexOf(v: nat, width: nat, max: nat)
    requires v < Power16(width) && v <= max && width > 0
    ensures ParseHex(Hex(v, width), max) == Some(v)
  {
    HexDigitsValue(v, width);
    HexDigitsAreHex(v, width);
    assert IsHexDigit(Hex(v, width)[0]);
  }
}
