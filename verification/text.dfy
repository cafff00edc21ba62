/** Character classes and string operations the core relies on, restricted
    to what can be stated without Unicode tables: case mapping is ASCII
    only, and whitespace is the set JavaScript's `\s` and `trim` use. */
module Text {

  predicate IsAsciiUpper(c: char) {
    'A' <= c <= 'Z'
  }

  predicate IsAsciiLower(c: char) {
    'a' <= c <= 'z'
  }

  predicate IsDigit(c: char) {
    '0' <= c <= '9'
  }

  /** JavaScript's WhiteSpace and LineTerminator characters: what `\s` matches and `trim` removes. */
  predicate IsSpace(c: char) {
    || c == '\t' || c == '\n' || c == '\U{000B}' || c == '\U{000C}' || c == '\r' || c == ' '
    || c == '\U{00A0}' || c == '\U{1680}' || ('\U{2000}' <= c <= '\U{200A}')
    || c == '\U{2028}' || c == '\U{2029}' || c == '\U{202F}' || c == '\U{205F}'
    || c == '\U{3000}' || c == '\U{FEFF}'
  }

  function LowerChar(c: char): (d: char)
    ensures !IsAsciiUpper(d)
    ensures IsAsciiUpper(c) ==> IsAsciiLower(d)
    ensures !IsAsciiUpper(c) ==> d == c
  {
    if IsAsciiUpper(c) then (c as int + 32) as char else c
  }

  function UpperChar(c: char): (d: char)
    ensures !IsAsciiLower(d)
    ensures IsAsciiLower(c) ==> IsAsciiUpper(d)
    ensures !IsAsciiLower(c) ==> d == c
  {
    if IsAsciiLower(c) then (c as int - 32) as char else c
  }

  /** `toLowerCase`, on the ASCII letters. */
  function Lower(s: string): (r: string)
    ensures |r| == |s|
    ensures forall i :: 0 <= i < |r| ==> !IsAsciiUpper(r[i])
  {
    seq(|s|, i requires 0 <= i < |s| => LowerChar(s[i]))
  }

  /** `toUpperCase`, on the ASCII letters. */
  function Upper(s: string): (r: string)
    ensures |r| == |s|
    ensures forall i :: 0 <= i < |r| ==> !IsAsciiLower(r[i])
  {
    seq(|s|, i requires 0 <= i < |s| => UpperChar(s[i]))
  }

  /** Lower-casing leaves a string without upper-case letters unchanged, so it is idempotent. */
  lemma LowerKeepsLower(s: string)
    requires forall i :: 0 <= i < |s| ==> !IsAsciiUpper(s[i])
    ensures Lower(s) == s
  {
  }

  lemma LowerIdempotent(s: string)
    ensures Lower(Lower(s)) == Lower(s)
  {
    LowerKeepsLower(Lower(s));
  }

  /** Upper-casing first makes no difference once a character is lower-cased. */
  lemma LowerOfUpperChar(c: char)
    ensures LowerChar(UpperChar(c)) == LowerChar(c)
  {
    if IsAsciiLower(c) {
      assert UpperChar(c) as int == c as int - 32;
    }
  }

  /** Lower-casing forgets any earlier upper-casing: `s.toUpperCase().toLowerCase()`
      is `s.toLowerCase()`. */
  lemma LowerOfUpper(s: string)
    ensures Lower(Upper(s)) == Lower(s)
  {
    forall i | 0 <= i < |s|
      ensures Lower(Upper(s))[i] == Lower(s)[i]
    {
      LowerOfUpperChar(s[i]);
    }
  }

  /** `needle` occurs in `hay` starting at position `i`. */
  predicate OccursAt(hay: string, needle: string, i: int) {
    0 <= i && i + |needle| <= |hay| && hay[i..i + |needle|] == needle
  }

  /** `hay.includes(needle)`: `needle` occurs in `hay` at some position. */
  predicate Contains(hay: string, needle: string) {
    exists i | 0 <= i <= |hay| :: OccursAt(hay, needle, i)
  }

  /** Every string includes the empty string. */
  lemma ContainsEmpty(hay: string)
    ensures Contains(hay, "")
  {
    assert OccursAt(hay, "", 0);
  }

  /** A string only includes strings no longer than itself. */
  lemma ContainsLength(hay: string, needle: string)
    ensures Contains(hay, needle) ==> |needle| <= |hay|
  {
  }

  /** The number of occurrences of `c` in `s`. */
  function Count(s: string, c: char): (n: nat)
    ensures n <= |s|
  {
    if |s| == 0 then 0 else (if s[0] == c then 1 else 0) + Count(s[1..], c)
  }

  lemma {:induction false} CountAppend(a: string, b: string, c: char)
    ensures Count(a + b, c) == Count(a, c) + Count(b, c)
  {
    if |a| == 0 {
      assert a + b == b;
    } else {
      assert (a + b)[1..] == a[1..] + b;
      CountAppend(a[1..], b, c);
    }
  }

  /** `s.split(sep)` for a one-character separator: the pieces between
      occurrences of `sep`, so one more piece than there are separators. */
  function Split(s: string, sep: char): (r: seq<string>)
    ensures |r| == Count(s, sep) + 1
    ensures forall k, j :: 0 <= k < |r| && 0 <= j < |r[k]| ==> r[k][j] != sep
  {
    if |s| == 0 then [""]
    else
      var rest := Split(s[1..], sep);
      if s[0] == sep then [""] + rest
      else [[s[0]] + rest[0]] + rest[1..]
  }

  /** `pieces.join(sep)`. */
  function Join(pieces: seq<string>, sep: char): string
    requires |pieces| >= 1
  {
    if |pieces| == 1 then pieces[0] else pieces[0] + [sep] + Join(pieces[1..], sep)
  }

  /** A join whose first piece is non-empty starts with that piece's first character. */
  lemma JoinStart(pieces: seq<string>, sep: char)
    requires |pieces| >= 1 && |pieces[0]| > 0
    ensures |Join(pieces, sep)| > 0 && Join(pieces, sep)[0] == pieces[0][0]
  {
    if |pieces| > 1 {
      assert Join(pieces, sep) == pieces[0] + ([sep] + Join(pieces[1..], sep));
    }
  }

  /** A property held by the separator and by every character of every
      piece holds for every character of the join. */
  lemma {:induction false} JoinChars(pieces: seq<string>, sep: char, p: char -> bool)
    requires |pieces| >= 1 && p(sep)
    requires forall k, j :: 0 <= k < |pieces| && 0 <= j < |pieces[k]| ==> p(pieces[k][j])
    ensures forall i :: 0 <= i < |Join(pieces, sep)| ==> p(Join(pieces, sep)[i])
  {
    if |pieces| > 1 {
      var rest := Join(pieces[1..], sep);
      JoinChars(pieces[1..], sep, p);
      var w := pieces[0];
      assert Join(pieces, sep) == w + [sep] + rest;
      forall i | 0 <= i < |Join(pieces, sep)|
        ensures p(Join(pieces, sep)[i])
      {
        if i < |w| {
          assert Join(pieces, sep)[i] == pieces[0][i];
        } else if i > |w| {
          assert Join(pieces, sep)[i] == rest[i - |w| - 1];
        }
      }
    } else {
      forall i | 0 <= i < |Join(pieces, sep)|
        ensures p(Join(pieces, sep)[i])
      {
        assert Join(pieces, sep)[i] == pieces[0][i];
      }
    }
  }

  /** Splitting and joining again on the same separator gives back the string. */
  lemma {:induction false} JoinSplit(s: string, sep: char)
    ensures Join(Split(s, sep), sep) == s
  {
    if |s| > 0 {
      var rest := Split(s[1..], sep);
      JoinSplit(s[1..], sep);
      if s[0] == sep {
        assert Split(s, sep)[1..] == rest;
      } else {
        var r := Split(s, sep);
        assert r[0] == [s[0]] + rest[0];
        if |rest| > 1 {
          assert r[1..] == rest[1..];
        }
      }
    }
  }

  /** The first piece of a split is a prefix of the string. */
  lemma {:induction false} SplitHeadIsPrefix(s: string, sep: char)
    ensures |Split(s, sep)[0]| <= |s|
    ensures Split(s, sep)[0] == s[..|Split(s, sep)[0]|]
  {
    if |s| > 0 {
      SplitHeadIsPrefix(s[1..], sep);
    }
  }

  /** The first piece is the whole string exactly when the separator does not occur. */
  lemma {:induction false} SplitHeadWhole(s: string, sep: char)
    ensures Split(s, sep)[0] == s <==> Count(s, sep) == 0
  {
    if |s| > 0 {
      SplitHeadWhole(s[1..], sep);
      SplitHeadIsPrefix(s[1..], sep);
    }
  }
}
