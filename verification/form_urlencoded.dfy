/** The `application/x-www-form-urlencoded` format of the WHATWG URL
    Standard (section 5), as `URLSearchParams` writes and reads it: each
    name and value is UTF-8 encoded, a space becomes `+`, the bytes of
    ASCII letters, digits and `*-._` are kept, every other byte becomes
    `%XX` with upper-case hex digits, and the pairs are written `name=value`
    and joined with `&`. Bytes are `nat`s below 256. */
module FormUrlEncoded {
  import Strings

  predicate IsByte(b: nat) {
    b < 256
  }

  predicate AllBytes(bs: seq<nat>) {
    forall i :: 0 <= i < |bs| ==> IsByte(bs[i])
  }

  /** The UTF-8 encoding of one code point. */
  function Utf8(c: char): (bs: seq<nat>)
    ensures 1 <= |bs| <= 4 && AllBytes(bs)
    ensures |bs| == 1 <==> c as int < 0x80
    ensures c as int < 0x80 ==> bs == [c as int]
  {
    var n := c as int;
    if n < 0x80 then [n]
    else if n < 0x800 then [0xC0 + n / 0x40, 0x80 + n % 0x40]
    else if n < 0x1_0000 then [0xE0 + n / 0x1000, 0x80 + (n / 0x40) % 0x40, 0x80 + n % 0x40]
    else [0xF0 + n / 0x4_0000, 0x80 + (n / 0x1000) % 0x40, 0x80 + (n / 0x40) % 0x40, 0x80 + n % 0x40]
  }

  /** The UTF-8 encoding of a string. */
  function Utf8String(s: string): (bs: seq<nat>)
    ensures AllBytes(bs)
    ensures |s| <= |bs| <= 4 * |s|
  {
    if s == [] then [] else Utf8(s[0]) + Utf8String(s[1..])
  }

  /** The characters the serializer leaves as they are. */
  predicate IsUnreserved(c: char) {
    ('a' <= c <= 'z') || ('A' <= c <= 'Z') || ('0' <= c <= '9')
    || c == '*' || c == '-' || c == '.' || c == '_'
  }

  predicate IsHexDigit(c: char) {
    ('0' <= c <= '9') || ('A' <= c <= 'F') || ('a' <= c <= 'f')
  }

  function HexValue(c: char): (d: nat)
    requires IsHexDigit(c)
    ensures d < 16
  {
    if '0' <= c <= '9' then c as int - '0' as int
    else if 'A' <= c <= 'F' then c as int - 'A' as int + 10
    else c as int - 'a' as int + 10
  }

  /** An upper-case hex digit. */
  function HexDigit(d: nat): (c: char)
    requires d < 16
    ensures IsHexDigit(c) && IsUnreserved(c) && HexValue(c) == d
  {
    if d < 10 then ('0' as int + d) as char else ('A' as int + d - 10) as char
  }

  /** `%XX` for one byte. */
  function Percent(b: nat): (e: string)
    requires IsByte(b)
  {
    ['%', HexDigit(b / 16), HexDigit(b % 16)]
  }

  function Percents(bs: seq<nat>): (e: string)
    requires AllBytes(bs)
    ensures |e| == 3 * |bs|
    ensures forall i :: 0 <= i < |e| ==> IsUnreserved(e[i]) || e[i] == '%'
  {
    if bs == [] then "" else Percent(bs[0]) + Percents(bs[1..])
  }

  function EncodeChar(c: char): (e: string)
    ensures 1 <= |e|
    ensures forall i :: 0 <= i < |e| ==> IsUnreserved(e[i]) || e[i] == '+' || e[i] == '%'
  {
    if c == ' ' then "+"
    else if IsUnreserved(c) then [c]
    else Percents(Utf8(c))
  }

  /** The byte serializer applied to the UTF-8 encoding of `s`. The result
      only holds unreserved characters, `+` and `%`, so in particular no
      `&`, `=`, `?` or `#`. */
  function Encode(s: string): (e: string)
    ensures |s| <= |e|
    ensures forall i :: 0 <= i < |e| ==> IsUnreserved(e[i]) || e[i] == '+' || e[i] == '%'
  {
    if s == [] then ""
    else
      var head := EncodeChar(s[0]);
      var tail := Encode(s[1..]);
      assert forall i :: |head| <= i < |head| + |tail| ==> (head + tail)[i] == tail[i - |head|];
      head + tail
  }

  /** The parser's percent-decoding of one name or value: `+` is a space,
      `%` with two hex digits is that byte, any other character stands for
      its own UTF-8 bytes (a `%` included). */
  function DecodeBytes(e: string): (bs: seq<nat>)
    ensures AllBytes(bs)
  {
    if e == [] then []
    else if e[0] == '+' then [0x20] + DecodeBytes(e[1..])
    else if e[0] == '%' && |e| >= 3 && IsHexDigit(e[1]) && IsHexDigit(e[2]) then
      [16 * HexValue(e[1]) + HexValue(e[2])] + DecodeBytes(e[3..])
    else Utf8(e[0]) + DecodeBytes(e[1..])
  }

  /** Text made only of unreserved characters is written unchanged. */
  lemma {:induction false} EncodeUnreserved(s: string)
    requires forall i :: 0 <= i < |s| ==> IsUnreserved(s[i])
    ensures Encode(s) == s
  {
    if s != [] {
      EncodeUnreserved(s[1..]);
      assert [s[0]] + s[1..] == s;
    }
  }

  lemma {:induction false} DecodePercents(bs: seq<nat>, rest: string)
    requires AllBytes(bs)
    ensures DecodeBytes(Percents(bs) + rest) == bs + DecodeBytes(rest)
  {
    if bs != [] {
      var b := bs[0];
      var tail := Percents(bs[1..]) + rest;
      var e := Percents(bs) + rest;
      assert e == Percent(b) + tail;
      assert e[0] == '%' && e[1] == HexDigit(b / 16) && e[2] == HexDigit(b % 16);
      assert e[3..] == tail;
      DecodePercents(bs[1..], rest);
      assert [b] + bs[1..] == bs;
    } else {
      assert Percents(bs) + rest == rest;
    }
  }

  lemma DecodeEncodedChar(c: char, rest: string)
    ensures DecodeBytes(EncodeChar(c) + rest) == Utf8(c) + DecodeBytes(rest)
  {
    var e := EncodeChar(c) + rest;
    if c == ' ' {
      assert e[1..] == rest;
    } else if IsUnreserved(c) {
      assert e[0] == c && e[1..] == rest;
    } else {
      DecodePercents(Utf8(c), rest);
    }
  }

  /** Decoding an encoded string gives back its UTF-8 bytes. */
  lemma {:induction false} DecodeEncode(s: string)
    ensures DecodeBytes(Encode(s)) == Utf8String(s)
  {
    if s != [] {
      DecodeEncodedChar(s[0], Encode(s[1..]));
      DecodeEncode(s[1..]);
    }
  }

  /** `name=value` for one pair. */
  function PairText(name: string, value: string): string {
    Encode(name) + "=" + Encode(value)
  }

  function PairTexts(pairs: seq<(string, string)>): (texts: seq<string>)
    ensures |texts| == |pairs|
    ensures forall i :: 0 <= i < |pairs| ==> texts[i] == PairText(pairs[i].0, pairs[i].1)
  {
    if pairs == [] then [] else [PairText(pairs[0].0, pairs[0].1)] + PairTexts(pairs[1..])
  }

  /** None of the characters that delimit a query (or end it) can appear
      in an encoded name or value. */
  lemma EncodeHasNoDelimiters(s: string)
    ensures '&' !in Encode(s) && '=' !in Encode(s) && '?' !in Encode(s) && '#' !in Encode(s)
  {
    var e := Encode(s);
    forall i | 0 <= i < |e| ensures e[i] != '&' && e[i] != '=' && e[i] != '?' && e[i] != '#' {
      assert IsUnreserved(e[i]) || e[i] == '+' || e[i] == '%';
    }
  }

  lemma PairTextShape(name: string, value: string)
    ensures PairText(name, value) != ""
    ensures '&' !in PairText(name, value) && '?' !in PairText(name, value)
    ensures Strings.Split(PairText(name, value), '=') == [Encode(name), Encode(value)]
  {
    EncodeHasNoDelimiters(name);
    EncodeHasNoDelimiters(value);
    AssignmentShape(Encode(name), Encode(value));
  }

  lemma AssignmentShape(a: string, b: string)
    requires '&' !in a && '=' !in a && '?' !in a
    requires '&' !in b && '=' !in b && '?' !in b
    ensures '&' !in a + "=" + b && '?' !in a + "=" + b
    ensures Strings.Split(a + "=" + b, '=') == [a, b]
  {
    var t := a + "=" + b;
    forall i | 0 <= i < |t| ensures t[i] != '&' && t[i] != '?' {
      if i < |a| {
        assert t[i] == a[i];
      } else if i > |a| {
        assert t[i] == b[i - |a| - 1];
      }
    }
    assert t == a + ['='] + b;
    Strings.SplitAfterFirst(a, '=', b);
    Strings.SplitNoSeparator(b, '=');
  }

  /** `URLSearchParams.prototype.toString`. */
  function Serialize(pairs: seq<(string, string)>): (q: string)
    ensures q == "" <==> pairs == []
  {
    var texts := PairTexts(pairs);
    if pairs == [] then ""
    else
      PairTextShape(pairs[0].0, pairs[0].1);
      JoinOfNonEmptyHead(texts, "&");
      Strings.Join(texts, "&")
  }

  lemma JoinOfNonEmptyHead(parts: seq<string>, sep: string)
    requires |parts| >= 1 && parts[0] != ""
    ensures Strings.Join(parts, sep) != ""
  {
    if |parts| > 1 {
      assert |Strings.Join(parts, sep)| >= |parts[0]|;
    }
  }

  /** The parser: split at `&`, skip empty pieces, cut each piece at its
      first `=` (a piece without one is a name with an empty value), and
      percent-decode both sides. Names and values are left as bytes. */
  function ParsePieces(pieces: seq<string>): (r: seq<(seq<nat>, seq<nat>)>)
    ensures |r| <= |pieces|
    ensures (forall i :: 0 <= i < |pieces| ==> pieces[i] == "") ==> r == []
  {
    if pieces == [] then []
    else if pieces[0] == "" then ParsePieces(pieces[1..])
    else
      var parts := Strings.Split(pieces[0], '=');
      [(DecodeBytes(parts[0]), DecodeBytes(Strings.Join(parts[1..], "=")))] + ParsePieces(pieces[1..])
  }

  /** At most one pair per `&`-separated piece, and none for an empty
      query. */
  function Parse(q: string): (r: seq<(seq<nat>, seq<nat>)>)
    ensures q == "" ==> r == []
    ensures |r| <= Strings.Occurrences(q, '&') + 1
  {
    ParsePieces(Strings.Split(q, '&'))
  }

  /** The UTF-8 bytes of each name and value. */
  function PairBytes(pairs: seq<(string, string)>): (r: seq<(seq<nat>, seq<nat>)>)
    ensures |r| == |pairs|
    ensures forall i :: 0 <= i < |pairs| ==> r[i] == (Utf8String(pairs[i].0), Utf8String(pairs[i].1))
  {
    if pairs == [] then [] else [(Utf8String(pairs[0].0), Utf8String(pairs[0].1))] + PairBytes(pairs[1..])
  }

  lemma {:induction false} ParsePairTexts(pairs: seq<(string, string)>)
    ensures ParsePieces(PairTexts(pairs)) == PairBytes(pairs)
  {
    if pairs != [] {
      var (n, v) := pairs[0];
      PairTextShape(n, v);
      DecodeEncode(n);
      DecodeEncode(v);
      var texts := PairTexts(pairs);
      assert texts[1..] == PairTexts(pairs[1..]);
      assert Strings.Split(texts[0], '=')[1..] == [Encode(v)];
      ParsePairTexts(pairs[1..]);
    }
  }

  /** Round trip: parsing a serialized list gives back every pair, in
      order, as the UTF-8 bytes of its name and value. */
  lemma ParseSerialize(pairs: seq<(string, string)>)
    ensures Parse(Serialize(pairs)) == PairBytes(pairs)
  {
    var texts := PairTexts(pairs);
    if pairs != [] {
      forall i | 0 <= i < |texts| ensures '&' !in texts[i] {
        PairTextShape(pairs[i].0, pairs[i].1);
      }
      Strings.SplitJoin(texts, '&');
      ParsePairTexts(pairs);
    }
  }
}
