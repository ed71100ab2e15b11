/**
  The three JavaScript built-ins the allow-list parser relies on, on strings
  of Unicode characters: `String.prototype.trim`, `String.prototype.split`
  with a one-character separator, and `Array.prototype.join`.
 */
module JsString {

  /** The ECMAScript WhiteSpace and LineTerminator code points: TAB, VT, FF,
      SPACE, NO-BREAK SPACE, ZERO WIDTH NO-BREAK SPACE, the other space
      separators of Unicode category Zs (U+1680, U+2000 to U+200A, U+202F,
      U+205F, U+3000), LF, CR, LINE SEPARATOR and PARAGRAPH SEPARATOR.
      These are exactly the characters `trim` removes. */
  const WhitespaceCodePoints: seq<char> := [
    '\t', '\U{000B}', '\U{000C}', ' ', '\U{00A0}', '\U{FEFF}',
    '\U{1680}', '\U{2000}', '\U{2001}', '\U{2002}', '\U{2003}', '\U{2004}',
    '\U{2005}', '\U{2006}', '\U{2007}', '\U{2008}', '\U{2009}', '\U{200A}',
    '\U{202F}', '\U{205F}', '\U{3000}',
    '\n', '\r', '\U{2028}', '\U{2029}'
  ]

  /** `c` is one of `cs[i..]`; written as a recursion so that the verifier
      looks into the table only as far as a proof needs. */
  predicate IsOneOf(c: char, cs: seq<char>, i: nat)
    decreases |cs| - i
  {
    i < |cs| && (cs[i] == c || IsOneOf(c, cs, i + 1))
  }

  /** `IsOneOf` is membership. */
  lemma {:induction false} IsOneOfIff(c: char, cs: seq<char>, i: nat)
    requires i <= |cs|
    ensures IsOneOf(c, cs, i) <==> c in cs[i..]
    decreases |cs| - i
  {
    if i < |cs| {
      IsOneOfIff(c, cs, i + 1);
      assert cs[i..] == [cs[i]] + cs[i + 1..];
    }
  }

  predicate IsWhitespace(c: char) {
    IsOneOf(c, WhitespaceCodePoints, 0)
  }

  /** `IsWhitespace` holds of exactly the code points in the table. */
  lemma WhitespaceIff(c: char)
    ensures IsWhitespace(c) <==> c in WhitespaceCodePoints
  {
    IsOneOfIff(c, WhitespaceCodePoints, 0);
    assert WhitespaceCodePoints[0..] == WhitespaceCodePoints;
  }

  predicate AllWhitespace(s: string) {
    forall k :: 0 <= k < |s| ==> IsWhitespace(s[k])
  }

  /** Neither the first nor the last character of `s` is whitespace. */
  predicate IsTrimmed(s: string) {
    |s| == 0 || (!IsWhitespace(s[0]) && !IsWhitespace(s[|s| - 1]))
  }

  /** `s` consists of whitespace `s[..i]`, then `r`, then whitespace. */
  ghost predicate StripsTo(s: string, i: int, r: string) {
    && 0 <= i && i + |r| <= |s|
    && s[i..i + |r|] == r
    && (forall k :: 0 <= k < i ==> IsWhitespace(s[k]))
    && (forall k :: i + |r| <= k < |s| ==> IsWhitespace(s[k]))
  }

  /** Removes the leading whitespace of `s`. */
  function TrimStart(s: string): (r: string)
    ensures |r| <= |s|
    ensures |r| > 0 ==> !IsWhitespace(r[0]) && r[|r| - 1] == s[|s| - 1]
  {
    if |s| > 0 && IsWhitespace(s[0]) then TrimStart(s[1..]) else s
  }

  /** Removes the trailing whitespace of `s`. */
  function TrimEnd(s: string): (r: string)
    ensures |r| <= |s|
    ensures |r| > 0 ==> !IsWhitespace(r[|r| - 1]) && r[0] == s[0]
  {
    if |s| > 0 && IsWhitespace(s[|s| - 1]) then TrimEnd(s[..|s| - 1]) else s
  }

  /** `String.prototype.trim`: `s` without its leading and then without its
      trailing whitespace; the result is trimmed and no longer than `s`. */
  function Trim(s: string): (r: string)
    ensures IsTrimmed(r) && |r| <= |s|
  {
    TrimEnd(TrimStart(s))
  }

  /** `TrimStart` cuts off a run of whitespace and keeps the rest of `s`. */
  lemma {:induction false} TrimStartDrops(s: string)
    ensures TrimStart(s) == s[|s| - |TrimStart(s)|..]
    ensures forall k :: 0 <= k < |s| - |TrimStart(s)| ==> IsWhitespace(s[k])
  {
    if |s| > 0 && IsWhitespace(s[0]) {
      TrimStartDrops(s[1..]);
      forall k | 1 <= k < |s| - |TrimStart(s)| ensures IsWhitespace(s[k]) {
        assert s[k] == s[1..][k - 1];
      }
    }
  }

  /** `TrimEnd` cuts off a run of whitespace and keeps the rest of `s`. */
  lemma {:induction false} TrimEndKeeps(s: string)
    ensures TrimEnd(s) == s[..|TrimEnd(s)|]
    ensures forall k :: |TrimEnd(s)| <= k < |s| ==> IsWhitespace(s[k])
  {
    if |s| > 0 && IsWhitespace(s[|s| - 1]) {
      TrimEndKeeps(s[..|s| - 1]);
      forall k | |TrimEnd(s)| <= k < |s| - 1 ensures IsWhitespace(s[k]) {
        assert s[k] == s[..|s| - 1][k];
      }
    }
  }

  /** `Trim(s)` is what is left of `s` once a run of whitespace is cut off
      each end. */
  lemma TrimStrips(s: string)
    ensures StripsTo(s, |s| - |TrimStart(s)|, Trim(s))
  {
    var t := TrimStart(s);
    var r := TrimEnd(t);
    var i := |s| - |t|;
    TrimStartDrops(s);
    TrimEndKeeps(t);
    assert r == s[i..i + |r|];
    forall k | i + |r| <= k < |s| ensures IsWhitespace(s[k]) {
      assert s[k] == t[k - i];
    }
  }

  /** Every character of `Trim(s)` is a character of `s`. */
  lemma TrimChars(s: string)
    ensures forall c :: c in Trim(s) ==> c in s
  {
    TrimStrips(s);
  }

  /** With `i` leading whitespace characters and a non-whitespace one (or
      the end) at `i`, `TrimStart` keeps exactly `s[i..]`. */
  lemma {:induction false} TrimStartOf(s: string, i: nat)
    requires i <= |s| && forall k :: 0 <= k < i ==> IsWhitespace(s[k])
    requires i == |s| || !IsWhitespace(s[i])
    ensures TrimStart(s) == s[i..]
  {
    if i > 0 {
      assert IsWhitespace(s[0]);
      TrimStartOf(s[1..], i - 1);
    }
  }

  /** With whitespace from `j` on and a non-whitespace character (or the
      start) before `j`, `TrimEnd` keeps exactly `s[..j]`. */
  lemma {:induction false} TrimEndOf(s: string, j: nat)
    requires j <= |s| && forall k :: j <= k < |s| ==> IsWhitespace(s[k])
    requires j == 0 || !IsWhitespace(s[j - 1])
    ensures TrimEnd(s) == s[..j]
    decreases |s| - j
  {
    if j < |s| {
      assert IsWhitespace(s[|s| - 1]);
      TrimEndOf(s[..|s| - 1], j);
      assert s[..|s| - 1][..j] == s[..j];
    }
  }

  /** `trim` is determined by `StripsTo`: whenever `s` is a trimmed `r`
      padded with whitespace on both sides, `Trim(s)` is `r`. */
  lemma TrimIsUnique(s: string, i: int, r: string)
    requires StripsTo(s, i, r) && IsTrimmed(r)
    ensures Trim(s) == r
  {
    if |r| == 0 {
      TrimStartOf(s, |s|);
    } else {
      assert s[i] == r[0];
      TrimStartOf(s, i);
      var t := s[i..];
      assert t[|r| - 1] == r[|r| - 1];
      TrimEndOf(t, |r|);
      assert t[..|r|] == r;
    }
  }

  /** Padding a trimmed string with whitespace on both sides and trimming
      gives the string back. */
  lemma TrimPadded(lead: string, r: string, trail: string)
    requires AllWhitespace(lead) && AllWhitespace(trail) && IsTrimmed(r)
    ensures Trim(lead + r + trail) == r
  {
    var s := lead + r + trail;
    assert s[|lead|..|lead| + |r|] == r;
    forall k | |lead| + |r| <= k < |s| ensures IsWhitespace(s[k]) {
      assert s[k] == trail[k - |lead| - |r|];
    }
    TrimIsUnique(s, |lead|, r);
  }

  /** A string is left unchanged by `trim` exactly when it is trimmed. */
  lemma TrimFixedIff(s: string)
    ensures Trim(s) == s <==> IsTrimmed(s)
  {
    if IsTrimmed(s) {
      assert s[0..|s|] == s;
      TrimIsUnique(s, 0, s);
    }
  }

  /** `trim` is idempotent. */
  lemma TrimIdempotent(s: string)
    ensures Trim(Trim(s)) == Trim(s)
  {
    TrimFixedIff(Trim(s));
  }

  /** `trim` yields "" exactly for whitespace-only strings. */
  lemma TrimEmptyIff(s: string)
    ensures Trim(s) == "" <==> AllWhitespace(s)
  {
    TrimStrips(s);
  }

  /** Number of occurrences of `c` in `s`. */
  function Occurrences(s: string, c: char): nat {
    if |s| == 0 then 0 else (if s[0] == c then 1 else 0) + Occurrences(s[1..], c)
  }

  /** `Array.prototype.join(sep)`: the parts with `sep` between neighbours. */
  function Join(parts: seq<string>, sep: char): string {
    if |parts| == 0 then ""
    else if |parts| == 1 then parts[0]
    else parts[0] + [sep] + Join(parts[1..], sep)
  }

  /** `String.prototype.split(sep)` for a one-character separator. Every
      occurrence of `sep` ends a part, and empty parts are kept, so there is
      one part more than there are separators ("" gives [""], "a,,b" gives
      ["a", "", "b"], "a," gives ["a", ""]). No part contains `sep`, and
      joining the parts with `sep` gives `s` back. */
  function Split(s: string, sep: char): (parts: seq<string>)
    ensures |parts| == Occurrences(s, sep) + 1
    ensures forall j :: 0 <= j < |parts| ==> sep !in parts[j]
    ensures Join(parts, sep) == s
  {
    if |s| == 0 then [""]
    else
      var rest := Split(s[1..], sep);
      if s[0] == sep then
        var parts := [""] + rest;
        assert parts[1..] == rest;
        parts
      else
        var parts := [[s[0]] + rest[0]] + rest[1..];
        assert parts[1..] == rest[1..];
        assert |rest| > 1 ==> Join(rest, sep) == rest[0] + [sep] + Join(rest[1..], sep);
        parts
  }

  /** Splitting a string that starts with a separator-free `p` glues `p` to
      the first part. */
  lemma {:induction false} SplitPrefix(p: string, t: string, sep: char)
    requires sep !in p
    ensures Split(p + t, sep) == [p + Split(t, sep)[0]] + Split(t, sep)[1..]
  {
    if |p| == 0 {
      assert p + t == t;
      assert p + Split(t, sep)[0] == Split(t, sep)[0];
      assert Split(t, sep) == [Split(t, sep)[0]] + Split(t, sep)[1..];
    } else {
      assert (p + t)[0] == p[0];
      assert (p + t)[1..] == p[1..] + t;
      SplitPrefix(p[1..], t, sep);
      assert [p[0]] + (p[1..] + Split(t, sep)[0]) == p + Split(t, sep)[0];
    }
  }

  /** A leading separator ends an empty first part. */
  lemma SplitAfterSep(t: string, sep: char)
    ensures Split([sep] + t, sep) == [""] + Split(t, sep)
  {
    assert ([sep] + t)[1..] == t;
  }

  /** `split` inverts `join` on a non-empty list of separator-free parts. */
  lemma {:induction false} SplitJoin(parts: seq<string>, sep: char)
    requires |parts| >= 1
    requires forall j :: 0 <= j < |parts| ==> sep !in parts[j]
    ensures Split(Join(parts, sep), sep) == parts
  {
    var p := parts[0];
    if |parts| == 1 {
      SplitPrefix(p, "", sep);
      assert p + "" == p;
    } else {
      var tail := Join(parts[1..], sep);
      calc {
        Split(Join(parts, sep), sep);
        == { assert Join(parts, sep) == p + ([sep] + tail); }
        Split(p + ([sep] + tail), sep);
        == { SplitPrefix(p, [sep] + tail, sep); SplitAfterSep(tail, sep); }
        [p + ""] + Split(tail, sep);
        == { SplitJoin(parts[1..], sep); assert p + "" == p; }
        [p] + parts[1..];
        == parts;
      }
    }
  }

  /** Every character of `s` other than `sep` lies in some part of the split. */
  lemma {:induction false} SplitCovers(s: string, sep: char, k: nat)
    requires k < |s| && s[k] != sep
    ensures exists j :: 0 <= j < |Split(s, sep)| && s[k] in Split(s, sep)[j]
  {
    var parts := Split(s, sep);
    var rest := Split(s[1..], sep);
    if k == 0 {
      assert s[0] in parts[0];
    } else {
      SplitCovers(s[1..], sep, k - 1);
      var j :| 0 <= j < |rest| && s[k] in rest[j];
      if s[0] == sep {
        assert parts[j + 1] == rest[j];
      } else if j == 0 {
        assert parts[0] == [s[0]] + rest[0];
      } else {
        assert parts[j] == rest[j];
      }
    }
  }

  /** Every character of a part occurs in the joined string. */
  lemma {:induction false} JoinContains(parts: seq<string>, sep: char, j: nat, c: char)
    requires j < |parts| && c in parts[j]
    ensures c in Join(parts, sep)
  {
    if |parts| > 1 {
      if j == 0 {
        assert Join(parts, sep) == parts[0] + ([sep] + Join(parts[1..], sep));
      } else {
        JoinContains(parts[1..], sep, j - 1, c);
        assert Join(parts, sep) == (parts[0] + [sep]) + Join(parts[1..], sep);
      }
    }
  }

  /** Splitting "x,y" where neither side holds the separator. */
  lemma SplitTwo(x: string, y: string, sep: char)
    requires sep !in x && sep !in y
    ensures Split(x + [sep] + y, sep) == [x, y]
  {
    var parts := [x, y];
    assert Join(parts, sep) == x + [sep] + y by {
      assert parts[1..] == [y];
      assert Join([y], sep) == y;
    }
    assert forall j :: 0 <= j < |parts| ==> sep !in parts[j];
    SplitJoin(parts, sep);
  }
}
