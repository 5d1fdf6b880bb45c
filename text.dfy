/**
 * The string operations the portal's decision logic relies on, written out
 * over `seq<char>`: `toLowerCase`, `endsWith`, `includes`, `split` and
 * `parseInt(_, 10)`, each restricted to what the models need.
 */
module Text {
  import opened Results

  // ---------------------------------------------------------------------
  // Lower-casing (`String.prototype.toLowerCase`, ASCII letters only)
  // ---------------------------------------------------------------------

  predicate IsUpper(c: char) {
    'A' <= c <= 'Z'
  }

  /** The lower-case form of one character: `A`..`Z` become `a`..`z`, all else is kept. */
  function LowerChar(c: char): (d: char)
    ensures !IsUpper(d)
    ensures !IsUpper(c) ==> d == c
    ensures IsUpper(c) ==> 'a' <= d <= 'z' && d as int - c as int == 'a' as int - 'A' as int
  {
    if IsUpper(c) then (c as int - 'A' as int + 'a' as int) as char else c
  }

  /** No character of `s` is an upper-case letter. */
  predicate IsLower(s: string) {
    forall i :: 0 <= i < |s| ==> !IsUpper(s[i])
  }

  /** `s.toLowerCase()`: the same characters, position by position, lower-cased. */
  function Lower(s: string): (r: string)
    ensures |r| == |s|
    ensures forall i :: 0 <= i < |s| ==> r[i] == LowerChar(s[i])
    ensures IsLower(r)
  {
    if s == [] then [] else [LowerChar(s[0])] + Lower(s[1..])
  }

  /** A string that is already lower-case is left unchanged by lower-casing. */
  lemma LowerFixesLowercase(s: string)
    requires IsLower(s)
    ensures Lower(s) == s
  {
    assert forall i :: 0 <= i < |s| ==> Lower(s)[i] == s[i];
  }

  /** Lower-casing is idempotent. */
  lemma LowerIdempotent(s: string)
    ensures Lower(Lower(s)) == Lower(s)
  {
    LowerFixesLowercase(Lower(s));
  }

  /** Lower-casing distributes over concatenation. */
  lemma {:induction false} LowerAppend(a: string, b: string)
    ensures Lower(a + b) == Lower(a) + Lower(b)
  {
    if a != [] {
      assert (a + b)[1..] == a[1..] + b;
      LowerAppend(a[1..], b);
    }
  }

  // ---------------------------------------------------------------------
  // Suffix and substring tests (`endsWith`, `includes`)
  // ---------------------------------------------------------------------

  /** `s.endsWith(suffix)`: `s` is some prefix followed by `suffix`. */
  function EndsWith(s: string, suffix: string): (b: bool)
    ensures b ==> |suffix| <= |s| && s[..|s| - |suffix|] + suffix == s
  {
    |suffix| <= |s| && s[|s| - |suffix|..] == suffix
  }

  /** Conversely, any prefix followed by `suffix` ends with `suffix`. */
  lemma EndsWithAppend(prefix: string, suffix: string)
    ensures EndsWith(prefix + suffix, suffix)
  {
    assert (prefix + suffix)[|prefix|..] == suffix;
  }

  /** `t` occurs in `s` starting at index `i`. */
  ghost predicate OccursAt(s: string, t: string, i: int) {
    0 <= i && i + |t| <= |s| && s[i..i + |t|] == t
  }

  /** Dropping a first character that does not start an occurrence keeps exactly the later occurrences. */
  lemma IncludesStep(s: string, t: string)
    requires |t| <= |s| && s[..|t|] != t
    ensures (exists i :: OccursAt(s, t, i)) <==> (exists j :: OccursAt(s[1..], t, j))
  {
    if exists i :: OccursAt(s, t, i) {
      var i :| OccursAt(s, t, i);
      assert i != 0 by { assert s[0..|t|] == s[..|t|]; }
      assert s[1..][i - 1..i - 1 + |t|] == s[i..i + |t|];
      assert OccursAt(s[1..], t, i - 1);
    }
    if exists j :: OccursAt(s[1..], t, j) {
      var j :| OccursAt(s[1..], t, j);
      assert s[1..][j..j + |t|] == s[j + 1..j + 1 + |t|];
      assert OccursAt(s, t, j + 1);
    }
  }

  /** `s.includes(t)`: a left-to-right scan for an occurrence of `t` in `s`. */
  function Includes(s: string, t: string): (b: bool)
    ensures b <==> exists i :: OccursAt(s, t, i)
    decreases |s|
  {
    if |t| > |s| then false
    else if s[..|t|] == t then
      assert OccursAt(s, t, 0) by { assert s[0..|t|] == s[..|t|]; }
      true
    else
      IncludesStep(s, t);
      Includes(s[1..], t)
  }

  // ---------------------------------------------------------------------
  // `split` on one separator character, and its inverse `join`
  // ---------------------------------------------------------------------

  /** `parts.join(sep)`. */
  function Join(parts: seq<string>, sep: char): string
  {
    if |parts| == 0 then []
    else if |parts| == 1 then parts[0]
    else parts[0] + [sep] + Join(parts[1..], sep)
  }

  /**
   * `s.split(sep)`: the maximal separator-free pieces of `s`, in order; there
   * is always at least one piece (`"".split("/")` is `[""]`).
   */
  function Split(s: string, sep: char): (parts: seq<string>)
    ensures |parts| >= 1
    ensures forall i :: 0 <= i < |parts| ==> sep !in parts[i]
    ensures Join(parts, sep) == s
  {
    if s == [] then [[]]
    else
      var rest := Split(s[1..], sep);
      if s[0] == sep then
        assert [s[0]] + s[1..] == s;
        [[]] + rest
      else
        assert [s[0]] + s[1..] == s;
        assert |rest| > 1 ==> Join(rest, sep) == rest[0] + [sep] + Join(rest[1..], sep);
        [[s[0]] + rest[0]] + rest[1..]
  }

  /** A string without the separator is a single piece. */
  lemma {:induction false} SplitWithoutSeparator(a: string, sep: char)
    requires sep !in a
    ensures Split(a, sep) == [a]
  {
    if a != [] {
      SplitWithoutSeparator(a[1..], sep);
      assert [a[0]] + a[1..] == a;
    }
  }

  /** A separator-free prefix followed by the separator is split off as the first piece. */
  lemma {:induction false} SplitAfterPiece(a: string, b: string, sep: char)
    requires sep !in a
    ensures Split(a + [sep] + b, sep) == [a] + Split(b, sep)
  {
    var s := a + [sep] + b;
    if a == [] {
      assert s[0] == sep && s[1..] == b;
    } else {
      assert s[0] == a[0] && s[1..] == a[1..] + [sep] + b;
      SplitAfterPiece(a[1..], b, sep);
      assert [a[0]] + a[1..] == a;
    }
  }

  /** Three separator-free pieces joined by the separator split back into those three. */
  lemma SplitThree(a: string, b: string, c: string, sep: char)
    requires sep !in a && sep !in b && sep !in c
    ensures Split(a + [sep] + b + [sep] + c, sep) == [a, b, c]
  {
    SplitWithoutSeparator(c, sep);
    SplitAfterPiece(b, c, sep);
    assert a + [sep] + b + [sep] + c == a + [sep] + (b + [sep] + c);
    SplitAfterPiece(a, b + [sep] + c, sep);
  }

  /** A character missing from the joined string is missing from every piece. */
  lemma {:induction false} JoinOmits(parts: seq<string>, sep: char, c: char)
    requires c !in Join(parts, sep)
    ensures forall i :: 0 <= i < |parts| ==> c !in parts[i]
  {
    if |parts| > 1 {
      JoinOmits(parts[1..], sep, c);
      assert forall i :: 1 <= i < |parts| ==> parts[i] == parts[1..][i - 1];
    }
  }

  /** Splitting undoes joining separator-free pieces. */
  lemma {:induction false} SplitJoin(parts: seq<string>, sep: char)
    requires |parts| >= 1
    requires forall i :: 0 <= i < |parts| ==> sep !in parts[i]
    ensures Split(Join(parts, sep), sep) == parts
  {
    if |parts| == 1 {
      SplitWithoutSeparator(parts[0], sep);
    } else {
      SplitJoin(parts[1..], sep);
      SplitAfterPiece(parts[0], Join(parts[1..], sep), sep);
      assert [parts[0]] + parts[1..] == parts;
    }
  }

  /**
   * The value a destructuring `const [a, b, c] = parts` binds at position `i`:
   * the piece, or `undefined` when there are too few pieces, which a template
   * literal or `parseInt` reads as the text "undefined".
   */
  function Piece(parts: seq<string>, i: nat): (p: string)
    ensures i < |parts| ==> p == parts[i]
    ensures |parts| <= i ==> p == "undefined"
  {
    if i < |parts| then parts[i] else "undefined"
  }

  // ---------------------------------------------------------------------
  // `parseInt(s, 10)`
  // ---------------------------------------------------------------------

  /** The ASCII white-space characters `parseInt` skips (tab, line feed, vertical tab, form feed, carriage return, space). */
  predicate IsSpace(c: char) {
    c == ' ' || 9 <= c as int <= 13
  }

  predicate IsDigit(c: char) {
    '0' <= c <= '9'
  }

  predicate AllDigits(s: string) {
    forall i :: 0 <= i < |s| ==> IsDigit(s[i])
  }

  /** The longest prefix of `s` made of decimal digits. */
  function LeadingDigits(s: string): (d: string)
    ensures AllDigits(d)
    ensures d <= s
    ensures |d| < |s| ==> !IsDigit(s[|d|])
  {
    if s != [] && IsDigit(s[0]) then [s[0]] + LeadingDigits(s[1..]) else []
  }

  /** The value of a string of decimal digits, most significant first. */
  function DecimalValue(d: string): nat
    requires AllDigits(d)
  {
    if d == [] then 0
    else 10 * DecimalValue(d[..|d| - 1]) + (d[|d| - 1] as int - '0' as int)
  }

  /**
   * `parseInt(s, 10)`: skip leading white space, read an optional sign and
   * the longest run of digits after it; no digits gives `NaN`, here `None`.
   * Read by its first character: nothing left is `NaN`; white space is
   * skipped; a digit starts the number; a sign followed by a digit gives the
   * signed number, a sign followed by anything else `NaN`; any other
   * character `NaN`.
   */
  function ParseInt(s: string): (r: Option<int>)
    ensures s == [] ==> r.None?
    ensures s != [] && IsSpace(s[0]) ==> r == ParseInt(s[1..])
    ensures s != [] && IsDigit(s[0]) ==> r == Some(DecimalValue(LeadingDigits(s)))
    ensures |s| >= 2 && s[0] == '+' && IsDigit(s[1]) ==> r == Some(DecimalValue(LeadingDigits(s[1..])))
    ensures |s| >= 2 && s[0] == '-' && IsDigit(s[1]) ==> r == Some(-(DecimalValue(LeadingDigits(s[1..])) as int))
    ensures s != [] && (s[0] == '+' || s[0] == '-') && (|s| == 1 || !IsDigit(s[1])) ==> r.None?
    ensures s != [] && !IsSpace(s[0]) && !IsDigit(s[0]) && s[0] != '+' && s[0] != '-' ==> r.None?
  {
    if s != [] && IsSpace(s[0]) then ParseInt(s[1..])
    else
      var unsigned := if s != [] && (s[0] == '+' || s[0] == '-') then s[1..] else s;
      var digits := LeadingDigits(unsigned);
      var magnitude: int := DecimalValue(digits);
      if digits == [] then None
      else if s[0] == '-' then Some(-magnitude)
      else Some(magnitude)
  }

  /** A string made only of digits is its own longest digit prefix. */
  lemma {:induction false} LeadingDigitsOfDigits(d: string)
    requires AllDigits(d)
    ensures LeadingDigits(d) == d
  {
    if d != [] {
      LeadingDigitsOfDigits(d[1..]);
      assert [d[0]] + d[1..] == d;
    }
  }

  /** `parseInt` reads a non-empty run of digits as its decimal value. */
  lemma ParseIntDigits(d: string)
    requires d != [] && AllDigits(d)
    ensures ParseInt(d) == Some(DecimalValue(d))
  {
    LeadingDigitsOfDigits(d);
  }
}
