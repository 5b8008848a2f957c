/** URL query strings: the two parsers of the HTTP server, and percent-encoding (section 2.1 of RFC 3986). */
module QueryString {
  import opened Common
  import opened Text

  function Min(a: nat, b: nat): nat { if a < b then a else b }

  /** `urldecode`: a decoded byte becomes the character of that code; a bad escape stays as it is. */
  function Decoded(s: string): string {
    if s == [] then []
    else if s[0] == '%' then
      var hex, rest := s[1..Min(3, |s|)], s[Min(3, |s|)..];
      match ParseHex(hex, U8_MAX)
      case Some(b) => [b as char] + Decoded(rest)
      case None => ['%'] + hex + Decoded(rest)
    else if s[0] == '+' then [' '] + Decoded(s[1..])
    else [s[0]] + Decoded(s[1..])
  }

  method UrlDecode(s: string) returns (result: string)
    ensures result == Decoded(s)
  {
    hide ParseHex;
    result := [];
    var chars := s;
    while chars != []
      invariant result + Decoded(chars) == Decoded(s)
      decreases |chars|
    {
      ghost var done, before := result, chars;
      var c := chars[0];
      chars := chars[1..];
      if c == '%' {
        var hex := chars[..Min(2, |chars|)];
        chars := chars[Min(2, |chars|)..];
        SliceAfterFirst(before);
        var byte := ParseHex(hex, U8_MAX);
        if byte.Some? {
          result := result + [byte.value as char];
          assert done + ([byte.value as char] + Decoded(chars)) == result + Decoded(chars);
        } else {
          result := result + ['%'];
          result := result + hex;
          assert done + (['%'] + hex + Decoded(chars)) == result + Decoded(chars);
        }
      } else if c == '+' {
        result := result + [' '];
        assert done + ([' '] + Decoded(chars)) == result + Decoded(chars);
      } else {
        result := result + [c];
        assert done + ([c] + Decoded(chars)) == result + Decoded(chars);
      }
    }
  }

  lemma SliceAfterFirst(s: string)
    requires s != []
    ensures s[1..Min(3, |s|)] == s[1..][..Min(2, |s| - 1)] && s[Min(3, |s|)..] == s[1..][Min(2, |s| - 1)..]
  {
  }

  /**
   What decoding does to the next characters: a plus sign is a space, an escape of two hex digits is the
   character of that code, any other escape and any other character stays.
   */
  lemma DecodesByPiece(c: char, x: char, y: char, rest: string)
    ensures Decoded(['+'] + rest) == [' '] + Decoded(rest)
    ensures c != '+' && c != '%' ==> Decoded([c] + rest) == [c] + Decoded(rest)
    ensures HexValue(x).Some? && HexValue(y).Some? ==>
              Decoded(['%', x, y] + rest) == [(16 * HexValue(x).value + HexValue(y).value) as char] + Decoded(rest)
    ensures HexValue(y) == None ==> Decoded(['%', x, y] + rest) == ['%', x, y] + Decoded(rest)
    ensures Decoded(['%']) == ['%'] && (HexValue(x) == None ==> Decoded(['%', x]) == ['%', x])
  {
    var s := ['%', x, y] + rest;
    assert (['+'] + rest)[1..] == rest && ([c] + rest)[1..] == rest;
    assert s[1..Min(3, |s|)] == [x, y] && s[Min(3, |s|)..] == rest;
    TwoDigits(x, y);
    OneDigit(x);
    assert ['%'][1..1] == [] && ['%'][1..] == [] && ['%', x][1..2] == [x] && ['%', x][2..] == [];
  }

  lemma TwoDigits(x: char, y: char)
    ensures HexValue(x).Some? && HexValue(y).Some? ==>
              ParseHex([x, y], U8_MAX) == Some(16 * HexValue(x).value + HexValue(y).value)
    ensures HexValue(y) == None ==> ParseHex([x, y], U8_MAX) == None
  {
    assert [x, y][..1] == [x] && [x][..0] == [] && [y][..0] == [] && [x, y][1..] == [y];
    assert DigitsValue([x]) == HexValue(x) && DigitsValue([y]) == HexValue(y);
  }

  lemma OneDigit(x: char)
    ensures HexValue(x) == None ==> ParseHex([x], U8_MAX) == None
  {
    assert [x][..0] == [] && [x][1..] == [];
    assert DigitsValue([x]) == HexValue(x);
  }

  /** The text after the first question mark, up to a second one. */
  function QueryOf(url: string): Option<string> {
    var parts := Split(url, '?');
    if |parts| < 2 then None else Some(parts[1])
  }

  /** One piece as a decoded pair; a piece without an equals sign is none. */
  function PairOf(piece: string): Option<(string, string)> {
    match SplitOnce(piece, '=')
    case Some((k, v)) => Some((Decoded(k), Decoded(v)))
    case None => None
  }

  /** The query stands between the first question mark and the next one, if there is one. */
  lemma QueryBetweenMarks(path: string, query: string, more: string)
    requires '?' !in path && '?' !in query
    ensures QueryOf(path) == None
    ensures QueryOf(path + ['?'] + query) == Some(query)
    ensures QueryOf(path + ['?'] + (query + ['?'] + more)) == Some(query)
  {
    SplitNothing(path, '?');
    SplitNothing(query, '?');
    SplitAtFirst(path, '?', query);
    SplitAtFirst(path, '?', query + ['?'] + more);
    SplitAtFirst(query, '?', more);
  }

  /** A piece is split at its first equals sign; without one it is no pair. */
  lemma PairAtFirstEquals(key: string, value: string)
    requires '=' !in key
    ensures PairOf(key + ['='] + value) == Some((Decoded(key), Decoded(value))) && PairOf(key) == None
  {
    SplitOnceAtFirst(key, '=', value);
    SplitOnceNothing(key, '=');
  }

  /** The decoded pairs in order. */
  function PairsOf(pieces: seq<string>): seq<(string, string)> {
    if pieces == [] then []
    else
      var front, last := PairsOf(pieces[..|pieces| - 1]), PairOf(pieces[|pieces| - 1]);
      if last.Some? then front + [last.value] else front
  }

  function Pairs(url: string): seq<(string, string)> {
    match QueryOf(url)
    case Some(q) => PairsOf(Split(q, '&'))
    case None => []
  }

  /** Later pairs replace earlier ones. */
  function LastWins(pairs: seq<(string, string)>): map<string, string> {
    if pairs == [] then map[]
    else LastWins(pairs[..|pairs| - 1])[pairs[|pairs| - 1].0 := pairs[|pairs| - 1].1]
  }

  function FirstMatch(pairs: seq<(string, string)>, key: string): Option<string> {
    if pairs == [] then None
    else if pairs[0].0 == key then Some(pairs[0].1)
    else FirstMatch(pairs[1..], key)
  }

  lemma LastWinsAppend(pairs: seq<(string, string)>, p: (string, string))
    ensures LastWins(pairs + [p]) == LastWins(pairs)[p.0 := p.1]
  {
    assert (pairs + [p])[..|pairs|] == pairs;
  }

  method ParseQueryParams(url: string) returns (params: map<string, string>)
    ensures params == LastWins(Pairs(url))
  {
    params := map[];
    var query := QueryOf(url);
    if query.Some? {
      var pieces := Split(query.value, '&');
      for i := 0 to |pieces|
        invariant params == LastWins(PairsOf(pieces[..i]))
      {
        assert pieces[..i + 1][..i] == pieces[..i];
        var pair := SplitOnce(pieces[i], '=');
        if pair.Some? {
          var key := UrlDecode(pair.value.0);
          var value := UrlDecode(pair.value.1);
          LastWinsAppend(PairsOf(pieces[..i]), (key, value));
          params := params[key := value];
        }
      }
      assert pieces[..|pieces|] == pieces;
    }
  }

  method ParseQueryParam(url: string, key: string) returns (found: Option<string>)
    ensures found == FirstMatch(Pairs(url), key)
  {
    found := None;
    var query := QueryOf(url);
    if query == None {
      return;
    }
    var pieces := Split(query.value, '&');
    for i := 0 to |pieces|
      invariant FirstMatch(PairsOf(pieces[..i]), key) == None
    {
      assert pieces[..i + 1][..i] == pieces[..i];
      var pair := SplitOnce(pieces[i], '=');
      if pair.Some? {
        var k := UrlDecode(pair.value.0);
        FirstMatchAppend(PairsOf(pieces[..i]), (k, Decoded(pair.value.1)), key);
        if k == key {
          var v := UrlDecode(pair.value.1);
          MatchIsFinal(pieces, i + 1, key);
          return Some(v);
        }
      }
    }
    assert pieces[..|pieces|] == pieces;
  }

  lemma {:induction false} FirstMatchAppend(pairs: seq<(string, string)>, p: (string, string), key: string)
    ensures FirstMatch(pairs + [p], key) ==
            if FirstMatch(pairs, key).Some? then FirstMatch(pairs, key) else if p.0 == key then Some(p.1) else None
  {
    if pairs == [] {
      assert pairs + [p] == [p] && [p][1..] == [];
    } else {
      assert (pairs + [p])[1..] == pairs[1..] + [p];
      FirstMatchAppend(pairs[1..], p, key);
    }
  }

  /** A key found in the first pieces stays found with the same value. */
  lemma {:induction false} MatchIsFinal(pieces: seq<string>, n: nat, key: string)
    requires n <= |pieces| && FirstMatch(PairsOf(pieces[..n]), key).Some?
    ensures FirstMatch(PairsOf(pieces), key) == FirstMatch(PairsOf(pieces[..n]), key)
  {
    if n < |pieces| {
      var front, last := pieces[..|pieces| - 1], PairOf(pieces[|pieces| - 1]);
      assert front[..n] == pieces[..n];
      MatchIsFinal(front, n, key);
      if last.Some? {
        FirstMatchAppend(PairsOf(front), last.value, key);
      }
    } else {
      assert pieces[..n] == pieces;
    }
  }

  predicate DistinctKeys(pairs: seq<(string, string)>) {
    forall i, j :: 0 <= i < j < |pairs| ==> pairs[i].0 != pairs[j].0
  }

  lemma {:induction false} LastWinsKeys(pairs: seq<(string, string)>)
    ensures forall k :: k in LastWins(pairs) <==> exists i :: 0 <= i < |pairs| && pairs[i].0 == k
  {
    if pairs != [] {
      LastWinsKeys(pairs[..|pairs| - 1]);
    }
  }

  /** For every URL whose keys are distinct the two parsers agree on every key. */
  lemma {:induction false} ParsersAgree(pairs: seq<(string, string)>, key: string)
    requires DistinctKeys(pairs)
    ensures FirstMatch(pairs, key) == if key in LastWins(pairs) then Some(LastWins(pairs)[key]) else None
  {
    if pairs != [] {
      var front, last := pairs[..|pairs| - 1], pairs[|pairs| - 1];
      ParsersAgree(front, key);
      FirstMatchAppend(front, last, key);
      LastWinsKeys(front);
      assert front + [last] == pairs;
    }
  }

  /** The values filed under `key`, in order. */
  function ValuesOf(pairs: seq<(string, string)>, key: string): seq<string> {
    if pairs == [] then []
    else
      var front, last := ValuesOf(pairs[..|pairs| - 1], key), pairs[|pairs| - 1];
      if last.0 == key then front + [last.1] else front
  }

  /** For every list of pairs one parser answers with the first value of the key, the other with its last. */
  lemma {:induction false} FirstAndLast(pairs: seq<(string, string)>, key: string)
    ensures var values := ValuesOf(pairs, key);
            && FirstMatch(pairs, key) == (if values == [] then None else Some(values[0]))
            && (key in LastWins(pairs) <==> values != [])
            && (values != [] ==> LastWins(pairs)[key] == values[|values| - 1])
  {
    if pairs != [] {
      var front, last := pairs[..|pairs| - 1], pairs[|pairs| - 1];
      FirstAndLast(front, key);
      FirstMatchAppend(front, last, key);
      assert front + [last] == pairs;
    }
  }

  function MapAnswer(params: map<string, string>, key: string): Option<string> {
    if key in params then Some(params[key]) else None
  }

  /** So for every URL and key the parsers agree if and only if the first and the last value of the key do. */
  lemma AgreeExactly(url: string, key: string)
    ensures var values := ValuesOf(Pairs(url), key);
            FirstMatch(Pairs(url), key) == MapAnswer(LastWins(Pairs(url)), key) <==>
            values == [] || values[0] == values[|values| - 1]
  {
    FirstAndLast(Pairs(url), key);
  }

  /** Two different values make them disagree, for any key and any values printed into a URL. */
  lemma RepeatedKey(path: string, key: string, first: string, last: string)
    requires '?' !in path && IsAscii(key) && IsAscii(first) && IsAscii(last)
    ensures var url := PrintUrl(path, [(key, first), (key, last)]);
            FirstMatch(Pairs(url), key) == MapAnswer(LastWins(Pairs(url)), key) <==> first == last
  {
    hide PrintUrl, Pairs, MapAnswer, FirstMatch, LastWins;
    var pairs := [(key, first), (key, last)];
    UrlRoundTrip(path, pairs);
    TwoValues(key, first, last);
    AgreeExactly(PrintUrl(path, pairs), key);
  }

  lemma TwoValues(key: string, first: string, last: string)
    ensures ValuesOf([(key, first), (key, last)], key) == [first, last]
  {
    var one, two := [(key, first)], [(key, first), (key, last)];
    assert one[..0] == [] && two[..1] == one;
    assert ValuesOf(one, key) == [first];
  }

  // ----- The printer

  predicate Unreserved(c: char) {
    'a' <= c <= 'z' || 'A' <= c <= 'Z' || '0' <= c <= '9' || c == '-' || c == '.' || c == '_' || c == '~'
  }

  predicate IsAscii(s: string) { forall i :: 0 <= i < |s| ==> s[i] < 128 as char }

  function EncodeChar(c: char): string { if Unreserved(c) then [c] else ['%'] + Hex(c as int, 2) }

  function Encode(s: string): string { if s == [] then [] else EncodeChar(s[0]) + Encode(s[1..]) }

  lemma EscapeDecodes(c: char, rest: string)
    requires c < 128 as char
    ensures Decoded(EncodeChar(c) + rest) == [c] + Decoded(rest)
  {
    var s := EncodeChar(c) + rest;
    if Unreserved(c) {
      assert s[0] == c && s[1..] == rest;
    } else {
      assert Power16(2) == 16 * Power16(1) && Power16(1) == 16;
      ParseHexOf(c as int, 2, U8_MAX);
      assert s[0] == '%' && s[1..3] == Hex(c as int, 2) && s[3..] == rest && Min(3, |s|) == 3;
    }
  }

  lemma {:induction false} DecodeUndoesEncode(s: string)
    requires IsAscii(s)
    ensures Decoded(Encode(s)) == s
  {
    if s != [] {
      EscapeDecodes(s[0], Encode(s[1..]));
      DecodeUndoesEncode(s[1..]);
      assert s == [s[0]] + s[1..];
    }
  }

  /** Encoded text contains none of the separators. */
  lemma {:induction false} EncodeIsSafe(s: string)
    requires IsAscii(s)
    ensures forall c :: c in {'?', '&', '='} ==> c !in Encode(s)
  {
    if s != [] {
      EncodeIsSafe(s[1..]);
      if !Unreserved(s[0]) {
        assert Power16(2) == 16 * Power16(1) && Power16(1) == 16;
        HexDigitsAreHex(s[0] as int, 2);
        var hex := Hex(s[0] as int, 2);
        assert hex[0] in hex && hex[1] in hex && IsHexDigit(hex[0]) && IsHexDigit(hex[1]);
      }
    }
  }

  function PrintPair(p: (string, string)): string { Encode(p.0) + ['='] + Encode(p.1) }

  function PrintPairs(pairs: seq<(string, string)>): seq<string> {
    seq(|pairs|, i requires 0 <= i < |pairs| => PrintPair(pairs[i]))
  }

  function PrintUrl(path: string, pairs: seq<(string, string)>): string { path + ['?'] + Join(PrintPairs(pairs), '&') }

  lemma PrintPairIsSafe(p: (string, string))
    requires IsAscii(p.0) && IsAscii(p.1)
    ensures '&' !in PrintPair(p) && '?' !in PrintPair(p)
    ensures SplitOnce(PrintPair(p), '=') == Some((Encode(p.0), Encode(p.1)))
  {
    EncodeIsSafe(p.0);
    EncodeIsSafe(p.1);
    SplitOnceAtFirst(Encode(p.0), '=', Encode(p.1));
  }

  predicate Safe(s: string) { '&' !in s && '?' !in s }

  /** Each printed piece is free of separators and parses to its pair. */
  lemma PrintedPiece(p: (string, string))
    requires IsAscii(p.0) && IsAscii(p.1)
    ensures Safe(PrintPair(p)) && PairOf(PrintPair(p)) == Some(p)
  {
    PrintPairIsSafe(p);
    DecodeUndoesEncode(p.0);
    DecodeUndoesEncode(p.1);
  }

  lemma PrintedPieces(pairs: seq<(string, string)>)
    requires forall i :: 0 <= i < |pairs| ==> IsAscii(pairs[i].0) && IsAscii(pairs[i].1)
    ensures var pieces := PrintPairs(pairs);
            forall i :: 0 <= i < |pieces| ==> Safe(pieces[i]) && PairOf(pieces[i]) == Some(pairs[i])
  {
    forall i | 0 <= i < |pairs| ensures Safe(PrintPair(pairs[i])) && PairOf(PrintPair(pairs[i])) == Some(pairs[i]) {
      PrintedPiece(pairs[i]);
    }
  }

  lemma {:induction false} PairsOfPieces(pieces: seq<string>, pairs: seq<(string, string)>)
    requires |pieces| == |pairs| && forall i :: 0 <= i < |pieces| ==> PairOf(pieces[i]) == Some(pairs[i])
    ensures PairsOf(pieces) == pairs
  {
    if pieces != [] {
      PairsOfPieces(pieces[..|pieces| - 1], pairs[..|pairs| - 1]);
      assert pairs == pairs[..|pairs| - 1] + [pairs[|pairs| - 1]];
    }
  }

  /** Printing any ASCII pairs after any path and parsing the URL gives the pairs back, in order. */
  lemma UrlRoundTrip(path: string, pairs: seq<(string, string)>)
    requires '?' !in path
    requires forall i :: 0 <= i < |pairs| ==> IsAscii(pairs[i].0) && IsAscii(pairs[i].1)
    ensures Pairs(PrintUrl(path, pairs)) == pairs
  {
    var pieces := PrintPairs(pairs);
    PrintedPieces(pairs);
    JoinAvoids(pieces, '&', '?');
    SplitAtFirst(path, '?', Join(pieces, '&'));
    SplitNothing(Join(pieces, '&'), '?');
    assert QueryOf(PrintUrl(path, pairs)) == Some(Join(pieces, '&'));
    if pairs == [] {
      var one: seq<string> := [[]];
      assert Split([], '&') == one && SplitOnce([], '=') == None && one[..0] == [];
      assert PairsOf(one) == [];
    } else {
      SplitJoin(pieces, '&');
      PairsOfPieces(pieces, pairs);
    }
  }

  /** A map printed in any order of its keys is what the map-building parser returns. */
  lemma MapRoundTrip(path: string, pairs: seq<(string, string)>, params: map<string, string>)
    requires '?' !in path && DistinctKeys(pairs)
    requires forall i :: 0 <= i < |pairs| ==> IsAscii(pairs[i].0) && IsAscii(pairs[i].1)
    requires forall k, v :: (k, v) in pairs <==> k in params && params[k] == v
    ensures LastWins(Pairs(PrintUrl(path, pairs))) == params
  {
    UrlRoundTrip(path, pairs);
    LastWinsKeys(pairs);
    LastWinsValues(pairs);
    var parsed := LastWins(pairs);
    forall k ensures k in parsed <==> k in params {
      if k in params {
        assert (k, params[k]) in pairs;
      }
    }
    forall k | k in parsed ensures parsed[k] == params[k] {
      assert (k, parsed[k]) in pairs;
    }
  }

  lemma {:induction false} LastWinsValues(pairs: seq<(string, string)>)
    ensures forall k :: k in LastWins(pairs) ==> (k, LastWins(pairs)[k]) in pairs
  {
    if pairs != [] {
      LastWinsValues(pairs[..|pairs| - 1]);
    }
  }
}
