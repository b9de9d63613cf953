/**
 * The JavaScript string operations the table layer relies on:
 * `split`, `toLowerCase`, `includes`, `trim`, `replace(/x/g, …)` and the
 * `<` comparison that lodash's `sortBy` applies to string keys.
 */
module Strings {
  import opened Collections

  /** `s.split(sep)` for a one-character separator. */
  function Split(s: string, sep: char): (parts: seq<string>)
    ensures |parts| >= 1
    ensures forall i :: 0 <= i < |parts| ==> sep !in parts[i]
    ensures Join(parts, sep) == s
    ensures |parts| == 1 <==> sep !in s
  {
    if s == [] then [""]
    else
      var rest := Split(s[1..], sep);
      assert s == [s[0]] + s[1..];
      if s[0] == sep then
        assert ([""] + rest)[1..] == rest;
        [""] + rest
      else
        JoinExtendsHead(s[0], rest, sep);
        [[s[0]] + rest[0]] + rest[1..]
  }

  /** `parts.join(sep)`. */
  function Join(parts: seq<string>, sep: char): string
    requires |parts| >= 1
  {
    if |parts| == 1 then parts[0] else parts[0] + [sep] + Join(parts[1..], sep)
  }

  /** Prefixing the first part with `c` prefixes the joined string with `c`. */
  lemma JoinExtendsHead(c: char, parts: seq<string>, sep: char)
    requires |parts| >= 1
    ensures var p := [[c] + parts[0]] + parts[1..];
      && |p| == |parts| && p[0] == [c] + parts[0] && p[1..] == parts[1..]
      && Join(p, sep) == [c] + Join(parts, sep)
  {
    var p := [[c] + parts[0]] + parts[1..];
    assert p[1..] == parts[1..];
    if |parts| > 1 {
      assert Join(p, sep) == ([c] + parts[0]) + [sep] + Join(parts[1..], sep);
      assert [c] + Join(parts, sep) == [c] + (parts[0] + [sep] + Join(parts[1..], sep));
    }
  }

  function Last<T>(s: seq<T>): T
    requires |s| > 0
  {
    s[|s| - 1]
  }

  /**
   * `l` is the part of `s` after its last separator: a suffix of `s`
   * holding no separator, which is either all of `s` or comes right after
   * a separator.
   */
  ghost predicate FinalSegment(s: string, sep: char, l: string) {
    && |l| <= |s| && s[|s| - |l|..] == l && sep !in l
    && (|l| == |s| <==> sep !in s)
    && (|l| < |s| ==> s[|s| - |l| - 1] == sep)
  }

  /** The final segment of `s[1..]` is that of `s` when `s[1..]` or `s[0]` holds a separator. */
  lemma SegmentOfTail(s: string, sep: char, l: string)
    requires s != [] && FinalSegment(s[1..], sep, l) && (s[0] == sep || |l| < |s| - 1)
    ensures FinalSegment(s, sep, l)
  {
    var t := s[1..];
    assert sep in s by {
      if s[0] != sep {
        assert t[|t| - |l| - 1] == sep;
      }
    }
    assert s[|s| - |l|..] == t[|t| - |l|..];
    if |l| < |t| {
      assert s[|s| - |l| - 1] == t[|t| - |l| - 1];
    }
  }

  /** The last piece of `s.split(sep)` is the part of `s` after its last separator. */
  lemma {:induction false} LastPieceIsFinalSegment(s: string, sep: char)
    decreases |s|, 1
    ensures FinalSegment(s, sep, Last(Split(s, sep)))
  {
    if s != [] {
      var t := s[1..];
      if s[0] == sep || |Split(t, sep)| > 1 {
        LastPieceIsFinalSegment(t, sep);
        LastPieceOfTail(s, sep);
        SegmentOfTail(s, sep, Last(Split(t, sep)));
      } else {
        var rest := Split(t, sep);
        assert rest[0] == Join(rest, sep) == t;
        assert Last(Split(s, sep)) == [s[0]] + t == s;
      }
    }
  }

  lemma LastPieceOfTail(s: string, sep: char)
    requires s != [] && (s[0] == sep || |Split(s[1..], sep)| > 1)
    ensures Last(Split(s, sep)) == Last(Split(s[1..], sep))
    ensures s[0] != sep ==> |Last(Split(s, sep))| < |s| - 1
    decreases |s|, 0
  {
    var t := s[1..];
    var rest := Split(t, sep);
    if s[0] == sep {
      assert Split(s, sep) == [""] + rest;
      LastAfterPrepend("", rest);
    } else {
      assert Split(s, sep) == [[s[0]] + rest[0]] + rest[1..];
      LastAfterPrepend([s[0]] + rest[0], rest[1..]);
      assert Last(rest[1..]) == Last(rest);
      LastPieceIsFinalSegment(t, sep);
    }
  }

  lemma LastAfterPrepend<T>(x: T, q: seq<T>)
    requires |q| > 0
    ensures Last([x] + q) == Last(q)
  {
  }

  function LowerChar(c: char): char {
    if 'A' <= c <= 'Z' then (c as int + 32) as char else c
  }

  /** `s.toLowerCase()`, for the ASCII letters. */
  function ToLower(s: string): (r: string)
    ensures |r| == |s|
    ensures forall i :: 0 <= i < |s| ==> r[i] == LowerChar(s[i])
  {
    seq(|s|, i requires 0 <= i < |s| => LowerChar(s[i]))
  }

  /** `s.includes(q)`. */
  predicate Contains(s: string, q: string) {
    q <= s || (s != [] && Contains(s[1..], q))
  }

  /** The characters `String.prototype.trim` removes: WhiteSpace and LineTerminator. */
  predicate IsWhitespace(c: char) {
    || c == '\t' || c == '\n' || c == '\U{000B}' || c == '\U{000C}' || c == '\r'
    || c == ' ' || c == '\U{00A0}' || c == '\U{1680}'
    || ('\U{2000}' <= c <= '\U{200A}')
    || c == '\U{2028}' || c == '\U{2029}' || c == '\U{202F}' || c == '\U{205F}'
    || c == '\U{3000}' || c == '\U{FEFF}'
  }

  /** How many whitespace characters `s` starts with. */
  function LeadingWhitespace(s: string): (n: nat)
    ensures n <= |s|
    ensures forall k :: 0 <= k < n ==> IsWhitespace(s[k])
    ensures n < |s| ==> !IsWhitespace(s[n])
  {
    if s == [] || !IsWhitespace(s[0]) then 0 else 1 + LeadingWhitespace(s[1..])
  }

  /** How many whitespace characters `s` ends with. */
  function TrailingWhitespace(s: string): (n: nat)
    ensures n <= |s|
    ensures forall k :: |s| - n <= k < |s| ==> IsWhitespace(s[k])
    ensures n < |s| ==> !IsWhitespace(s[|s| - n - 1])
  {
    if s == [] || !IsWhitespace(s[|s| - 1]) then 0 else 1 + TrailingWhitespace(s[..|s| - 1])
  }

  /**
   * `s.trim()`: the substring `s[i..j]` left after dropping the leading and
   * the trailing whitespace, which starts and ends with a non-whitespace
   * character; it is empty exactly when `s` is all whitespace.
   */
  function Trim(s: string): (r: string)
    ensures exists i, j :: (0 <= i <= j <= |s| && r == s[i..j]
      && (forall k :: 0 <= k < i ==> IsWhitespace(s[k]))
      && (forall k :: j <= k < |s| ==> IsWhitespace(s[k])))
    ensures r != [] ==> !IsWhitespace(r[0]) && !IsWhitespace(r[|r| - 1])
    ensures r == [] <==> forall k :: 0 <= k < |s| ==> IsWhitespace(s[k])
  {
    var i := LeadingWhitespace(s);
    var j := TrimEnd(s);
    if i == j then
      s[i..j]
    else
      assert s[i..j][0] == s[i] && s[i..j][j - i - 1] == s[j - 1];
      s[i..j]
  }

  /** A string that neither starts nor ends with whitespace is its own trim. */
  lemma TrimUnpadded(s: string)
    requires s != [] && !IsWhitespace(s[0]) && !IsWhitespace(s[|s| - 1])
    ensures Trim(s) == s
  {
    var i, j :| 0 <= i <= j <= |s| && Trim(s) == s[i..j]
      && (forall k :: 0 <= k < i ==> IsWhitespace(s[k]))
      && (forall k :: j <= k < |s| ==> IsWhitespace(s[k]));
    assert i == 0 && j == |s|;
    assert s[0..|s|] == s;
  }

  /** Trimming twice trims nothing more. */
  lemma TrimIdempotent(s: string)
    ensures Trim(Trim(s)) == Trim(s)
  {
    var r := Trim(s);
    if r != [] {
      TrimUnpadded(r);
    } else {
      assert Trim(r) == [];
    }
  }

  /** Where `s.trim()` ends: after the last non-whitespace character, never before the start. */
  function TrimEnd(s: string): (j: nat)
    ensures LeadingWhitespace(s) <= j <= |s|
    ensures forall k :: j <= k < |s| ==> IsWhitespace(s[k])
    ensures j > LeadingWhitespace(s) ==> !IsWhitespace(s[j - 1])
    ensures j == LeadingWhitespace(s) ==> j == |s|
  {
    var i := LeadingWhitespace(s);
    var t := s[i..];
    var n := TrailingWhitespace(t);
    if n == |t| then |s|
    else
      forall k | |s| - n <= k < |s| ensures IsWhitespace(s[k]) {
        assert s[k] == t[k - i];
      }
      assert s[|s| - n - 1] == t[|t| - n - 1];
      assert !IsWhitespace(s[|s| - n - 1]);
      |s| - n
  }

  /** `s.replace(/c/g, rep)`: every `c` in `s` replaced by `rep`. */
  function ReplaceAll(s: string, c: char, rep: string): (r: string)
    ensures c !in rep ==> c !in r
    ensures c !in s ==> r == s
  {
    if s == [] then []
    else (if s[0] == c then rep else [s[0]]) + ReplaceAll(s[1..], c, rep)
  }

  /** The replacement of a concatenation is the concatenation of the replacements. */
  lemma {:induction false} ReplaceAllAppend(a: string, b: string, c: char, rep: string)
    ensures ReplaceAll(a + b, c, rep) == ReplaceAll(a, c, rep) + ReplaceAll(b, c, rep)
  {
    if a == [] {
      assert a + b == b;
    } else {
      assert (a + b)[0] == a[0] && (a + b)[1..] == a[1..] + b;
      ReplaceAllAppend(a[1..], b, c, rep);
      var head := if a[0] == c then rep else [a[0]];
      assert ReplaceAll(a + b, c, rep) == head + ReplaceAll(a[1..] + b, c, rep);
      assert head + (ReplaceAll(a[1..], c, rep) + ReplaceAll(b, c, rep))
          == (head + ReplaceAll(a[1..], c, rep)) + ReplaceAll(b, c, rep);
    }
  }

  /** One character: `c` becomes `rep`, any other character stays. */
  lemma ReplaceAllChar(x: char, c: char, rep: string)
    ensures ReplaceAll([x], c, rep) == if x == c then rep else [x]
  {
    assert [x][1..] == [];
    assert ReplaceAll([x], c, rep) == (if x == c then rep else [x]) + ReplaceAll([], c, rep);
  }

  /**
   * String `a <= b`: lexicographic, character by character, a proper prefix
   * first. Characters compare as Unicode code points; JavaScript compares
   * UTF-16 code units, which orders strings the same way unless a character
   * above U+FFFF meets one in U+E000 to U+FFFF.
   */
  predicate LessEq(a: string, b: string) {
    a == [] || (b != [] && (a[0] < b[0] || (a[0] == b[0] && LessEq(a[1..], b[1..]))))
  }

  lemma {:induction false} LessEqTotal(a: string, b: string)
    ensures LessEq(a, b) || LessEq(b, a)
  {
    if a != [] && b != [] && a[0] == b[0] {
      LessEqTotal(a[1..], b[1..]);
    }
  }

  lemma {:induction false} LessEqTransitive(a: string, b: string, c: string)
    requires LessEq(a, b) && LessEq(b, c)
    ensures LessEq(a, c)
  {
    if a != [] && a[0] == b[0] && b[0] == c[0] {
      LessEqTransitive(a[1..], b[1..], c[1..]);
    }
  }

  lemma {:induction false} LessEqAntisymmetric(a: string, b: string)
    requires LessEq(a, b) && LessEq(b, a)
    ensures a == b
  {
    if a != [] {
      LessEqAntisymmetric(a[1..], b[1..]);
      assert a == [a[0]] + a[1..] && b == [b[0]] + b[1..];
    }
  }

  /** String comparison is a total preorder, so lodash can sort by a string key. */
  lemma LessEqIsTotalPreorder()
    ensures TotalPreorder(LessEq)
  {
    forall a, b ensures LessEq(a, b) || LessEq(b, a) {
      LessEqTotal(a, b);
    }
    forall a, b, c | LessEq(a, b) && LessEq(b, c) ensures LessEq(a, c) {
      LessEqTransitive(a, b, c);
    }
  }
}
