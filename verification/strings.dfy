/** The JavaScript string operations the bug tracker relies on:
    `trim`, `length`, `split` with a one-character separator, `join`,
    and `toUpperCase` (ASCII letters only). */
module Strings {

  /** The code points ECMAScript counts as WhiteSpace or LineTerminator,
      i.e. exactly what `String.prototype.trim` removes. */
  predicate IsWhiteSpace(c: char) {
    c == '\U{0009}' || c == '\U{000A}' || c == '\U{000B}' || c == '\U{000C}'
    || c == '\U{000D}' || c == ' ' || c == '\U{00A0}' || c == '\U{1680}'
    || ('\U{2000}' <= c <= '\U{200A}') || c == '\U{2028}' || c == '\U{2029}'
    || c == '\U{202F}' || c == '\U{205F}' || c == '\U{3000}' || c == '\U{FEFF}'
  }

  predicate AllWhiteSpace(s: string) {
    forall i :: 0 <= i < |s| ==> IsWhiteSpace(s[i])
  }

  /** Number of whitespace characters at the start of `s`. */
  function LeadingWhiteSpace(s: string): (n: nat)
    ensures n <= |s|
    ensures AllWhiteSpace(s[..n])
    ensures n < |s| ==> !IsWhiteSpace(s[n])
  {
    if |s| > 0 && IsWhiteSpace(s[0]) then 1 + LeadingWhiteSpace(s[1..]) else 0
  }

  /** Number of whitespace characters at the end of `s`. */
  function TrailingWhiteSpace(s: string): (n: nat)
    ensures n <= |s|
    ensures AllWhiteSpace(s[|s| - n..])
    ensures n < |s| ==> !IsWhiteSpace(s[|s| - n - 1])
  {
    if |s| > 0 && IsWhiteSpace(s[|s| - 1]) then
      var n := 1 + TrailingWhiteSpace(s[..|s| - 1]);
      assert s[|s| - n..] == s[..|s| - 1][|s| - n..] + [s[|s| - 1]];
      n
    else 0
  }

  /** `String.prototype.trimStart`. */
  function TrimStart(s: string): string {
    s[LeadingWhiteSpace(s)..]
  }

  /** `String.prototype.trim`: what is left after removing whitespace from
      both ends; `TrimIsInfix` shows it is a slice of `s` with only
      whitespace cut away. */
  function Trim(s: string): (r: string)
    ensures |r| <= |s|
    ensures r == [] <==> AllWhiteSpace(s)
    ensures r != [] ==> !IsWhiteSpace(r[0]) && !IsWhiteSpace(r[|r| - 1])
  {
    var lo := LeadingWhiteSpace(s);
    var t := s[lo..];
    var r := t[..|t| - TrailingWhiteSpace(t)];
    TrimEmptyIffWhiteSpace(s, lo, t, r);
    r
  }

  lemma TrimEmptyIffWhiteSpace(s: string, lo: nat, t: string, r: string)
    requires lo == LeadingWhiteSpace(s) && t == s[lo..]
    requires r == t[..|t| - TrailingWhiteSpace(t)]
    ensures r == [] <==> AllWhiteSpace(s)
  {
    if AllWhiteSpace(s) {
      assert lo == |s|;
    }
    if r == [] {
      assert t == t[|t| - TrailingWhiteSpace(t)..];
      assert lo == |s|;
      assert s == s[..lo];
    }
  }

  /** The trimmed string sits inside `s` between two runs of whitespace. */
  lemma TrimIsInfix(s: string)
    ensures var lo := LeadingWhiteSpace(s);
            lo + |Trim(s)| <= |s| && s[lo..lo + |Trim(s)|] == Trim(s)
            && AllWhiteSpace(s[..lo]) && AllWhiteSpace(s[lo + |Trim(s)|..])
  {
    var lo := LeadingWhiteSpace(s);
    var t := s[lo..];
    var k := |t| - TrailingWhiteSpace(t);
    var r := Trim(s);
    assert r == t[..k];
    assert s[lo..lo + k] == r;
    assert s[lo + k..] == t[k..];
  }

  lemma {:induction false} LeadingWhiteSpaceOfConcat(ws: string, t: string)
    requires AllWhiteSpace(ws)
    requires t != [] && !IsWhiteSpace(t[0])
    ensures LeadingWhiteSpace(ws + t) == |ws|
  {
    if ws != [] {
      assert (ws + t)[1..] == ws[1..] + t;
      LeadingWhiteSpaceOfConcat(ws[1..], t);
    } else {
      assert ws + t == t;
    }
  }

  lemma {:induction false} TrailingWhiteSpaceOfConcat(t: string, ws: string)
    requires AllWhiteSpace(ws)
    requires t != [] && !IsWhiteSpace(t[|t| - 1])
    ensures TrailingWhiteSpace(t + ws) == |ws|
  {
    if ws != [] {
      var u := t + ws;
      assert u[..|u| - 1] == t + ws[..|ws| - 1];
      assert u[|u| - 1] == ws[|ws| - 1];
      TrailingWhiteSpaceOfConcat(t, ws[..|ws| - 1]);
    } else {
      assert t + ws == t;
    }
  }

  /** Trimming removes exactly the whitespace around a core that starts
      and ends with a non-whitespace character. */
  lemma TrimOfPadded(before: string, core: string, after: string)
    requires AllWhiteSpace(before) && AllWhiteSpace(after)
    requires core != [] && !IsWhiteSpace(core[0]) && !IsWhiteSpace(core[|core| - 1])
    ensures Trim(before + core + after) == core
  {
    var s := before + core + after;
    var t := core + after;
    assert s == before + t;
    assert t[0] == core[0];
    LeadingWhiteSpaceOfConcat(before, t);
    assert s[|before|..] == t;
    TrailingWhiteSpaceOfConcat(core, after);
    assert t[..|t| - |after|] == core;
  }

  /** A string with visible characters at both ends is its own trim. */
  lemma TrimOfUnpadded(core: string)
    requires core != [] && !IsWhiteSpace(core[0]) && !IsWhiteSpace(core[|core| - 1])
    ensures Trim(core) == core
  {
    assert LeadingWhiteSpace(core) == 0;
    assert core[0..] == core;
    assert TrailingWhiteSpace(core) == 0;
  }

  /** Length as JavaScript's `.length` reports it: UTF-16 code units, so a
      character outside the Basic Multilingual Plane counts twice. */
  function Utf16Units(c: char): nat {
    if c as int >= 0x1_0000 then 2 else 1
  }

  function Utf16Length(s: string): (n: nat)
    ensures |s| <= n <= 2 * |s|
  {
    if s == [] then 0 else Utf16Units(s[0]) + Utf16Length(s[1..])
  }

  predicate IsBmp(s: string) {
    forall i :: 0 <= i < |s| ==> s[i] as int < 0x1_0000
  }

  /** Only characters outside the Basic Multilingual Plane make `.length`
      differ from the number of characters. */
  lemma {:induction false} BmpLength(s: string)
    ensures Utf16Length(s) == |s| <==> IsBmp(s)
  {
    if s != [] {
      BmpLength(s[1..]);
      assert IsBmp(s) <==> s[0] as int < 0x1_0000 && IsBmp(s[1..]) by {
        if s[0] as int < 0x1_0000 && IsBmp(s[1..]) {
          forall i | 0 <= i < |s| ensures s[i] as int < 0x1_0000 {
            if i > 0 { assert s[i] == s[1..][i - 1]; }
          }
        }
      }
    }
  }

  /** `parts.join(sep)`. */
  function Join(parts: seq<string>, sep: string): string {
    if |parts| == 0 then ""
    else if |parts| == 1 then parts[0]
    else parts[0] + sep + Join(parts[1..], sep)
  }

  /** `s.split(sep)` for a one-character separator: the maximal pieces
      between separators, one more than there are separators. */
  function Split(s: string, sep: char): (parts: seq<string>)
    ensures |parts| == Occurrences(s, sep) + 1
    ensures forall i :: 0 <= i < |parts| ==> sep !in parts[i]
  {
    if s == [] then [""]
    else
      var rest := Split(s[1..], sep);
      if s[0] == sep then [""] + rest
      else [[s[0]] + rest[0]] + rest[1..]
  }

  /** Joining the pieces of a split with the same separator gives back the
      original string. */
  lemma {:induction false} JoinSplit(s: string, sep: char)
    ensures Join(Split(s, sep), [sep]) == s
  {
    if s != [] {
      var rest := Split(s[1..], sep);
      JoinSplit(s[1..], sep);
      if s[0] == sep {
        assert Split(s, sep)[1..] == rest;
      } else {
        var parts := Split(s, sep);
        assert parts[1..] == rest[1..];
        if |rest| == 1 {
          assert parts == [[s[0]] + rest[0]];
        } else {
          assert Join(rest, [sep]) == rest[0] + [sep] + Join(rest[1..], [sep]);
          assert Join(parts, [sep]) == [s[0]] + rest[0] + [sep] + Join(rest[1..], [sep]);
        }
      }
    }
  }

  /** Splitting `a + sep + b` where `a` holds no separator yields `a`
      followed by the pieces of `b`. */
  lemma {:induction false} SplitAfterFirst(a: string, sep: char, b: string)
    requires sep !in a
    ensures Split(a + [sep] + b, sep) == [a] + Split(b, sep)
  {
    var s := a + [sep] + b;
    if a == [] {
      assert s[0] == sep && s[1..] == b;
    } else {
      assert s[0] == a[0] != sep;
      assert s[1..] == a[1..] + [sep] + b;
      SplitAfterFirst(a[1..], sep, b);
      var rest := Split(s[1..], sep);
      assert rest[0] == a[1..] && rest[1..] == Split(b, sep);
      assert [a[0]] + a[1..] == a;
    }
  }

  /** The first piece of `t + more` is `t` when `t` holds no separator and
      `more` is empty or starts with one. */
  lemma SplitFirstPiece(t: string, sep: char, more: string)
    requires sep !in t
    requires more == [] || more[0] == sep
    ensures Split(t + more, sep)[0] == t
  {
    if more == [] {
      assert t + more == t;
      SplitNoSeparator(t, sep);
    } else {
      assert t + more == t + [sep] + more[1..];
      SplitAfterFirst(t, sep, more[1..]);
    }
  }

  /** A string without the separator splits into itself. */
  lemma {:induction false} SplitNoSeparator(s: string, sep: char)
    requires sep !in s
    ensures Split(s, sep) == [s]
  {
    if s != [] {
      SplitNoSeparator(s[1..], sep);
      assert [s[0]] + s[1..] == s;
    }
  }

  /** Splitting a join recovers the pieces when no piece holds the
      separator: `Split` is the inverse of `Join`. */
  lemma {:induction false} SplitJoin(parts: seq<string>, sep: char)
    requires |parts| >= 1
    requires forall i :: 0 <= i < |parts| ==> sep !in parts[i]
    ensures Split(Join(parts, [sep]), sep) == parts
  {
    if |parts| == 1 {
      SplitNoSeparator(parts[0], sep);
    } else {
      SplitJoin(parts[1..], sep);
      assert Join(parts, [sep]) == parts[0] + [sep] + Join(parts[1..], [sep]);
      SplitAfterFirst(parts[0], sep, Join(parts[1..], [sep]));
      assert [parts[0]] + parts[1..] == parts;
    }
  }

  /** Number of occurrences of `c` in `s`. */
  function Occurrences(s: string, c: char): (n: nat)
    ensures n <= |s|
    ensures n == 0 <==> c !in s
  {
    if s == [] then 0
    else (if s[0] == c then 1 else 0) + Occurrences(s[1..], c)
  }

  lemma {:induction false} OccurrencesConcat(a: string, b: string, c: char)
    ensures Occurrences(a + b, c) == Occurrences(a, c) + Occurrences(b, c)
  {
    if a == [] {
      assert a + b == b;
    } else {
      assert (a + b)[1..] == a[1..] + b;
      OccurrencesConcat(a[1..], b, c);
    }
  }

  /** `toUpperCase` on ASCII letters; every other character is kept. */
  function ToUpperAscii(s: string): (r: string)
    ensures |r| == |s|
    ensures forall i :: 0 <= i < |s| ==>
              r[i] == (if 'a' <= s[i] <= 'z' then (s[i] as int - 32) as char else s[i])
  {
    if s == [] then ""
    else
      var c := s[0];
      [if 'a' <= c <= 'z' then (c as int - 32) as char else c] + ToUpperAscii(s[1..])
  }
}
