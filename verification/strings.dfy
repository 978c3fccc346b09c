/** The handful of JavaScript string primitives the service relies on:
    trimming, ASCII lower-casing, splitting and joining on one character,
    substring tests, and the code-unit order that sorting uses. */
module Strings {

  /** White space as ECMAScript defines it for `String.prototype.trim` and the
      regular-expression class `\s`: the WhiteSpace and LineTerminator code points. */
  predicate IsSpace(c: char) {
    || c == ' ' || c == '\t' || c == '\n' || c == '\r'
    || c == '\U{000B}' || c == '\U{000C}' || c == '\U{00A0}' || c == '\U{1680}'
    || ('\U{2000}' <= c <= '\U{200A}')
    || c == '\U{2028}' || c == '\U{2029}' || c == '\U{202F}' || c == '\U{205F}'
    || c == '\U{3000}' || c == '\U{FEFF}'
  }

  /** `s.trim()`: white space removed from both ends. */
  function Trim(s: string): (r: string)
    ensures |r| <= |s|
    ensures |r| > 0 ==> !IsSpace(r[0]) && !IsSpace(r[|r| - 1])
    decreases |s|
  {
    if |s| > 0 && IsSpace(s[0]) then Trim(s[1..])
    else if |s| > 0 && IsSpace(s[|s| - 1]) then Trim(s[..|s| - 1])
    else s
  }

  /** `Trim(s)` is `s[i..j]`, and everything outside that slice is white
      space. */
  predicate TrimmedAt(s: string, i: nat, j: nat) {
    && i <= j <= |s| && Trim(s) == s[i..j]
    && (forall k :: 0 <= k < |s| && (k < i || j <= k) ==> IsSpace(s[k]))
  }

  /** The first case of `Trim`: a leading space shifts the slice by one. */
  lemma TrimSliceFront(s: string, i: nat, j: nat)
    requires |s| > 0 && IsSpace(s[0]) && TrimmedAt(s[1..], i, j)
    ensures TrimmedAt(s, i + 1, j + 1)
  {
    var t := s[1..];
    assert Trim(s) == s[i + 1..j + 1];
    forall k | 0 <= k < |s| && (k < i + 1 || j + 1 <= k) ensures IsSpace(s[k]) {
      if k > 0 {
        assert s[k] == t[k - 1];
      }
    }
  }

  /** The second case of `Trim`: a trailing space keeps the slice. */
  lemma TrimSliceBack(s: string, i: nat, j: nat)
    requires |s| > 0 && !IsSpace(s[0]) && IsSpace(s[|s| - 1]) && TrimmedAt(s[..|s| - 1], i, j)
    ensures TrimmedAt(s, i, j)
  {
    var t := s[..|s| - 1];
    assert Trim(s) == s[i..j];
    forall k | 0 <= k < |s| && (k < i || j <= k) ensures IsSpace(s[k]) {
      if k < |t| {
        assert s[k] == t[k];
      }
    }
  }

  /** Trimming keeps one contiguous piece of the string and cuts off only
      white space before and after it; with the ends `Trim` keeps, this pins
      the result down. */
  lemma {:induction false} TrimSlice(s: string)
    ensures exists i: nat, j: nat :: TrimmedAt(s, i, j)
    decreases |s|
  {
    if |s| > 0 && IsSpace(s[0]) {
      TrimSlice(s[1..]);
      var i: nat, j: nat :| TrimmedAt(s[1..], i, j);
      TrimSliceFront(s, i, j);
    } else if |s| > 0 && IsSpace(s[|s| - 1]) {
      TrimSlice(s[..|s| - 1]);
      var i: nat, j: nat :| TrimmedAt(s[..|s| - 1], i, j);
      TrimSliceBack(s, i, j);
    } else {
      assert TrimmedAt(s, 0, |s|);
    }
  }

  /** A string trims to nothing exactly when it is all white space. */
  lemma {:induction false} TrimEmptyIff(s: string)
    ensures Trim(s) == "" <==> forall i :: 0 <= i < |s| ==> IsSpace(s[i])
    decreases |s|
  {
    if |s| > 0 && IsSpace(s[0]) {
      TrimEmptyIff(s[1..]);
      assert forall i :: 1 <= i < |s| ==> s[i] == s[1..][i - 1];
    } else if |s| > 0 && IsSpace(s[|s| - 1]) {
      TrimEmptyIff(s[..|s| - 1]);
      assert forall i :: 0 <= i < |s| - 1 ==> s[i] == s[..|s| - 1][i];
    }
  }

  /** A string with no white space at either end is its own trim. */
  lemma TrimOfTrimmed(s: string)
    requires |s| > 0 ==> !IsSpace(s[0]) && !IsSpace(s[|s| - 1])
    ensures Trim(s) == s
  {
  }

  /** Trimming twice is trimming once. */
  lemma TrimIdempotent(s: string)
    ensures Trim(Trim(s)) == Trim(s)
  {
    TrimOfTrimmed(Trim(s));
  }

  /** `s` without its trailing U+0020 spaces: SQL pads the shorter operand of
      `=` with spaces, so trailing spaces never decide a comparison. */
  function DropTrailingSpaces(s: string): (r: string)
    ensures r <= s
    ensures forall i :: |r| <= i < |s| ==> s[i] == ' '
    ensures |r| > 0 ==> r[|r| - 1] != ' '
  {
    if |s| > 0 && s[|s| - 1] == ' ' then DropTrailingSpaces(s[..|s| - 1]) else s
  }

  /** ASCII lower-casing (the only letters the service compares case-insensitively). */
  function LowerChar(c: char): (d: char)
    ensures 'A' <= c <= 'Z' ==> d as int == c as int + 32
    ensures !('A' <= c <= 'Z') ==> d == c
  {
    if 'A' <= c <= 'Z' then (c as int + 32) as char else c
  }

  function ToLower(s: string): (r: string)
    ensures |r| == |s|
    ensures forall i :: 0 <= i < |s| ==> r[i] == LowerChar(s[i])
  {
    seq(|s|, i requires 0 <= i < |s| => LowerChar(s[i]))
  }

  /** The default collation of the database is case-insensitive and, as SQL
      pads the shorter operand of `=` with spaces, ignores trailing spaces: two
      NVARCHAR values are the same for `=`, a unique index and ORDER BY exactly
      when their collated forms are equal. Only ASCII letters fold. */
  function Collated(s: string): (r: string)
    ensures |r| <= |s|
  {
    ToLower(DropTrailingSpaces(s))
  }

  /** Collation ignores case and trailing spaces. */
  lemma CollatedExamples()
    ensures Collated("Salt") == Collated("salt")
    ensures Collated("Dessert") == Collated("dessert") == Collated("Dessert ")
    ensures Collated("salt") != Collated("pepper")
  {
    assert DropTrailingSpaces("Dessert ") == "Dessert";
    assert DropTrailingSpaces("Dessert") == "Dessert" && DropTrailingSpaces("dessert") == "dessert";
    assert Collated("salt")[0] == 's' && Collated("pepper")[0] == 'p';
  }

  /** `word` contains no upper-case ASCII letter. */
  predicate IsLowerWord(word: string) {
    forall i :: 0 <= i < |word| ==> !('A' <= word[i] <= 'Z')
  }

  /** `s` spells `word` with any mix of ASCII letter cases. */
  predicate SpelledIgnoringCase(s: string, word: string) {
    && |s| == |word|
    && forall i :: 0 <= i < |s| ==>
         s[i] == word[i] || ('a' <= word[i] <= 'z' && s[i] as int == word[i] as int - 32)
  }

  /** Lower-casing neither adds nor removes a character that is not a letter. */
  lemma LowerKeepsSymbol(s: string, c: char)
    requires !('a' <= c <= 'z') && !('A' <= c <= 'Z')
    ensures c in ToLower(s) <==> c in s
  {
    if c in ToLower(s) {
      var i :| 0 <= i < |s| && ToLower(s)[i] == c;
      assert s[i] == c;
    }
    if c in s {
      var i :| 0 <= i < |s| && s[i] == c;
      assert ToLower(s)[i] == c;
    }
  }

  /** Lower-casing a word without capitals changes nothing. */
  lemma LowerOfLower(s: string)
    requires IsLowerWord(s)
    ensures ToLower(s) == s
  {
    assert forall i :: 0 <= i < |s| ==> ToLower(s)[i] == s[i];
  }

  /** `s.toLowerCase() === word` holds exactly when `s` spells `word` in any letter case. */
  lemma LowerEqualsIff(s: string, word: string)
    requires IsLowerWord(word)
    ensures ToLower(s) == word <==> SpelledIgnoringCase(s, word)
  {
    if SpelledIgnoringCase(s, word) {
      assert forall i :: 0 <= i < |s| ==> ToLower(s)[i] == word[i];
    }
    if ToLower(s) == word {
      forall i | 0 <= i < |s|
        ensures s[i] == word[i] || ('a' <= word[i] <= 'z' && s[i] as int == word[i] as int - 32)
      {
        assert ToLower(s)[i] == LowerChar(s[i]);
      }
    }
  }

  predicate StartsWith(s: string, prefix: string) {
    |prefix| <= |s| && s[..|prefix|] == prefix
  }

  predicate EndsWith(s: string, suffix: string) {
    |suffix| <= |s| && s[|s| - |suffix|..] == suffix
  }

  /** `s.includes(sub)` */
  predicate Contains(s: string, sub: string)
    decreases |s|
  {
    |sub| <= |s| && (s[..|sub|] == sub || Contains(s[1..], sub))
  }

  /** Index of the first occurrence of `c`, or -1. */
  function IndexOf(s: string, c: char): (i: int)
    ensures -1 <= i < |s|
    ensures i == -1 <==> c !in s
    ensures 0 <= i ==> s[i] == c && c !in s[..i]
  {
    if |s| == 0 then -1
    else if s[0] == c then 0
    else
      var k := IndexOf(s[1..], c);
      if k < 0 then -1
      else
        assert s[..k + 1] == [s[0]] + s[1..][..k];
        k + 1
  }

  /** Index of the last occurrence of `c`, or -1. */
  function LastIndexOf(s: string, c: char): (i: int)
    ensures -1 <= i < |s|
    ensures i == -1 <==> c !in s
    ensures 0 <= i ==> s[i] == c && c !in s[i + 1..]
  {
    if |s| == 0 then -1
    else if s[|s| - 1] == c then |s| - 1
    else
      var k := LastIndexOf(s[..|s| - 1], c);
      LastIndexOfStep(s, c, k);
      k
  }

  /** The last `c` of a string not ending in `c` is the last `c` before its final character. */
  lemma LastIndexOfStep(s: string, c: char, k: int)
    requires |s| > 0 && s[|s| - 1] != c
    requires -1 <= k < |s| - 1
    requires k == -1 <==> c !in s[..|s| - 1]
    requires 0 <= k ==> s[..|s| - 1][k] == c && c !in s[..|s| - 1][k + 1..]
    ensures k == -1 <==> c !in s
    ensures 0 <= k ==> s[k] == c && c !in s[k + 1..]
  {
    var init := s[..|s| - 1];
    assert s == init + [s[|s| - 1]];
    if k >= 0 {
      assert s[k + 1..] == init[k + 1..] + [s[|s| - 1]];
    }
  }

  /** `s.split(c)` for a one-character separator. */
  function Split(s: string, c: char): (parts: seq<string>)
    ensures |parts| >= 1
    ensures forall p :: p in parts ==> c !in p
    decreases |s|
  {
    if c !in s then [s] else [s[..IndexOf(s, c)]] + Split(s[IndexOf(s, c) + 1..], c)
  }

  /** `parts.join(c)` for a one-character separator. */
  function Join(parts: seq<string>, c: char): string {
    if |parts| == 0 then ""
    else if |parts| == 1 then parts[0]
    else parts[0] + [c] + Join(parts[1..], c)
  }

  /** The first separator of `p + [c] + rest` sits right after a separator-free `p`. */
  lemma {:induction false} IndexOfAfter(p: string, c: char, rest: string)
    requires c !in p
    ensures IndexOf(p + [c] + rest, c) == |p|
  {
    if |p| > 0 {
      assert (p + [c] + rest)[1..] == p[1..] + [c] + rest;
      IndexOfAfter(p[1..], c, rest);
    }
  }

  /** A split is the first piece followed by the split of what follows the separator. */
  lemma SplitStep(s: string, c: char)
    requires c in s
    ensures Split(s, c) == [s[..IndexOf(s, c)]] + Split(s[IndexOf(s, c) + 1..], c)
  {
  }

  /** Joining the pieces of a split gives the original string back. */
  lemma {:induction false} JoinSplit(s: string, c: char)
    ensures Join(Split(s, c), c) == s
    decreases |s|
  {
    var i := IndexOf(s, c);
    if i >= 0 {
      var rest := Split(s[i + 1..], c);
      SplitStep(s, c);
      JoinSplit(s[i + 1..], c);
      assert Join([s[..i]] + rest, c) == s[..i] + [c] + Join(rest, c) by {
        assert ([s[..i]] + rest)[1..] == rest;
      }
      assert s == s[..i] + [c] + s[i + 1..];
    }
  }

  /** Splitting a join of separator-free pieces gives the pieces back. */
  lemma {:induction false} SplitJoin(parts: seq<string>, c: char)
    requires |parts| >= 1
    requires forall p :: p in parts ==> c !in p
    ensures Split(Join(parts, c), c) == parts
  {
    if |parts| > 1 {
      var tail := Join(parts[1..], c);
      var s := parts[0] + [c] + tail;
      assert Join(parts, c) == s;
      IndexOfAfter(parts[0], c, tail);
      assert s[..|parts[0]|] == parts[0];
      assert s[|parts[0]| + 1..] == tail;
      SplitStep(s, c);
      SplitJoin(parts[1..], c);
      assert parts == [parts[0]] + parts[1..];
    } else {
      assert c !in parts[0];
    }
  }

  /** A hexadecimal digit, in either letter case. */
  predicate IsHexDigit(c: char) {
    '0' <= c <= '9' || 'a' <= c <= 'f' || 'A' <= c <= 'F'
  }

  /** A truthy string, as `filter(Boolean)` keeps it. */
  predicate NonEmpty(s: string) { s != "" }

  /** `parts.map((item) => item.trim())` */
  function TrimEach(parts: seq<string>): (r: seq<string>)
    ensures |r| == |parts|
    ensures forall k :: 0 <= k < |parts| ==> r[k] == Trim(parts[k])
  {
    seq(|parts|, k requires 0 <= k < |parts| => Trim(parts[k]))
  }

  /** Trimming adds no character. */
  lemma {:induction false} TrimInside(s: string, c: char)
    requires c !in s
    ensures c !in Trim(s)
    decreases |s|
  {
    if |s| > 0 && IsSpace(s[0]) {
      assert forall k :: 0 <= k < |s[1..]| ==> s[1..][k] == s[k + 1];
      TrimInside(s[1..], c);
    } else if |s| > 0 && IsSpace(s[|s| - 1]) {
      assert forall k :: 0 <= k < |s| - 1 ==> s[..|s| - 1][k] == s[k];
      TrimInside(s[..|s| - 1], c);
    }
  }

  /** A join of pieces starts with the first piece. */
  lemma JoinStartsWith(parts: seq<string>, c: char)
    requires |parts| >= 1
    ensures |Join(parts, c)| >= |parts[0]|
  {
  }

  /** Every occurrence of `from` replaced by `to` (`s.split(from).join(to)`). */
  function ReplaceChar(s: string, from: char, to: char): (r: string)
    ensures |r| == |s|
    ensures forall i :: 0 <= i < |s| ==> r[i] == (if s[i] == from then to else s[i])
  {
    seq(|s|, i requires 0 <= i < |s| => if s[i] == from then to else s[i])
  }

  lemma ReplaceCharConcat(a: string, b: string, from: char, to: char)
    ensures ReplaceChar(a + b, from, to) == ReplaceChar(a, from, to) + ReplaceChar(b, from, to)
  {
  }

  lemma ReplaceCharAbsent(a: string, from: char, to: char)
    requires from !in a
    ensures ReplaceChar(a, from, to) == a
  {
  }

  lemma JoinCons(x: string, rest: seq<string>, c: char)
    requires |rest| >= 1
    ensures Join([x] + rest, c) == x + [c] + Join(rest, c)
  {
    assert ([x] + rest)[1..] == rest;
  }

  /** Replacing in `head + [from] + tail` replaces only in the two pieces. */
  lemma ReplaceAround(head: string, tail: string, from: char, to: char)
    requires from !in head
    ensures ReplaceChar(head + [from] + tail, from, to) == head + [to] + ReplaceChar(tail, from, to)
  {
    ReplaceCharConcat(head + [from], tail, from, to);
    ReplaceCharConcat(head, [from], from, to);
    ReplaceCharAbsent(head, from, to);
  }

  /** One step of the split/join replacement: the piece before the first
      separator, then the new separator, then the replaced remainder. */
  lemma JoinReplaceStep(s: string, head: string, tail: string, rest: seq<string>, from: char, to: char)
    requires s == head + [from] + tail && from !in head && |rest| >= 1
    requires Join(rest, to) == ReplaceChar(tail, from, to)
    ensures Join([head] + rest, to) == ReplaceChar(s, from, to)
  {
    JoinCons(head, rest, to);
    ReplaceAround(head, tail, from, to);
  }

  /** Splitting on one character and joining on another replaces the character. */
  lemma {:induction false} SplitJoinReplaces(s: string, from: char, to: char)
    ensures Join(Split(s, from), to) == ReplaceChar(s, from, to)
    decreases |s|, 1
  {
    if from in s {
      SplitJoinStep(s, from, to);
    } else {
      SplitJoinAbsent(s, from, to);
    }
  }

  lemma SplitJoinAbsent(s: string, from: char, to: char)
    requires from !in s
    ensures Join(Split(s, from), to) == ReplaceChar(s, from, to)
  {
    assert Split(s, from) == [s];
    ReplaceCharAbsent(s, from, to);
  }

  /** The replacement holds for a string with a separator once it holds for
      what follows the first one. */
  lemma {:induction false} SplitJoinStep(s: string, from: char, to: char)
    requires from in s
    ensures Join(Split(s, from), to) == ReplaceChar(s, from, to)
    decreases |s|, 0
  {
    var i := IndexOf(s, from);
    SplitJoinReplaces(s[i + 1..], from, to);
    SplitStep(s, from);
    Around(s, i);
    JoinReplaceStep(s, s[..i], s[i + 1..], Split(s[i + 1..], from), from, to);
  }

  /** A string is what precedes position `i`, its character there, and what follows. */
  lemma Around(s: string, i: int)
    requires 0 <= i < |s|
    ensures s == s[..i] + [s[i]] + s[i + 1..]
  {
  }

  function DigitChar(d: nat): char
    requires d < 10
  {
    "0123456789"[d]
  }

  /** Decimal rendering of a natural number, as a template string shows it. */
  function NatToString(n: nat): string
    decreases n
  {
    if n < 10 then [DigitChar(n)] else NatToString(n / 10) + [DigitChar(n % 10)]
  }

  /** The decimal text of an integer, as `${n}` prints it. */
  function IntToString(n: int): string {
    if n < 0 then "-" + NatToString(-n) else NatToString(n)
  }

  /** Code-point lexicographic order on strings (the order of `Array.prototype.sort`
      and of a binary collation). */
  predicate LexLe(a: string, b: string)
    decreases |a|
  {
    |a| == 0 || (|b| > 0 && (a[0] < b[0] || (a[0] == b[0] && LexLe(a[1..], b[1..]))))
  }

  lemma {:induction false} LexTotal(a: string, b: string)
    ensures LexLe(a, b) || LexLe(b, a)
    decreases |a|
  {
    if |a| > 0 && |b| > 0 && a[0] == b[0] {
      LexTotal(a[1..], b[1..]);
    }
  }

  lemma {:induction false} LexTransitive(a: string, b: string, c: string)
    requires LexLe(a, b) && LexLe(b, c)
    ensures LexLe(a, c)
    decreases |a|
  {
    if |a| > 0 && a[0] == b[0] && b[0] == c[0] {
      LexTransitive(a[1..], b[1..], c[1..]);
    }
  }

  lemma {:induction false} LexAntisymmetric(a: string, b: string)
    requires LexLe(a, b) && LexLe(b, a)
    ensures a == b
    decreases |a|
  {
    if |a| > 0 {
      LexAntisymmetric(a[1..], b[1..]);
      assert a == [a[0]] + a[1..];
      assert b == [b[0]] + b[1..];
    }
  }
}
