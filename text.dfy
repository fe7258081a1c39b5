/** The few Kotlin string operations the application relies on, written out
    over `seq<char>`: `Char.isWhitespace`, `trim`, `isBlank`, `substringBefore`,
    `substringAfter`, `substringAfterLast`, `split` and `compareTo`. */
module Text {

  /** Kotlin's `Char.isWhitespace()` on the JVM: `Character.isWhitespace(c)`
      or `Character.isSpaceChar(c)`, i.e. the ASCII controls TAB..CR and
      FS..US, the Unicode space separators (no-break spaces included), and the
      line and paragraph separators. */
  predicate IsWhitespace(c: char)
    ensures c == ' ' || c == '\t' || c == '\n' || c == '\r' ==> IsWhitespace(c)
    ensures IsWhitespace(c) ==> c != '/' && !('0' <= c <= '9') && !('A' <= c <= 'Z') && !('a' <= c <= 'z')
  {
    || ('\t' <= c <= '\r')
    || ('\U{001C}' <= c <= ' ')
    || c == '\U{00A0}'
    || c == '\U{1680}'
    || ('\U{2000}' <= c <= '\U{200A}')
    || c == '\U{2028}'
    || c == '\U{2029}'
    || c == '\U{202F}'
    || c == '\U{205F}'
    || c == '\U{3000}'
  }

  /** `isBlank()`: empty or whitespace only. */
  predicate IsBlank(s: string)
    ensures s == [] ==> IsBlank(s)
    ensures IsBlank(s) <==> forall c :: c in s ==> IsWhitespace(c)
  {
    forall i :: 0 <= i < |s| ==> IsWhitespace(s[i])
  }

  /** Neither end of `s` is whitespace. */
  predicate IsTrimmed(s: string) {
    s == [] || (!IsWhitespace(s[0]) && !IsWhitespace(s[|s| - 1]))
  }

  /** `s` with its leading whitespace removed. */
  function TrimStart(s: string): (r: string)
    ensures |r| <= |s| && r == s[|s| - |r|..]
    ensures r == [] || !IsWhitespace(r[0])
    ensures IsBlank(s[..|s| - |r|])
  {
    if s != [] && IsWhitespace(s[0]) then TrimStart(s[1..]) else s
  }

  /** `s` with its trailing whitespace removed. */
  function TrimEnd(s: string): (r: string)
    ensures |r| <= |s| && r == s[..|r|]
    ensures r == [] || !IsWhitespace(r[|r| - 1])
    ensures IsBlank(s[|r|..])
  {
    if s != [] && IsWhitespace(s[|s| - 1]) then
      var r := TrimEnd(s[..|s| - 1]);
      assert s[|r|..] == s[..|s| - 1][|r|..] + [s[|s| - 1]];
      r
    else s
  }

  /** `trim()`: whitespace removed at both ends, so that neither end of what
      is left is whitespace. */
  function Trim(s: string): (r: string)
    ensures |r| <= |s|
    ensures IsTrimmed(r)
  {
    var a := TrimStart(s);
    var r := TrimEnd(a);
    if r != [] then
      assert r[0] == a[0];
      r
    else r
  }

  /** The number of whitespace characters `trim()` drops at the start. */
  function LeadingBlanks(s: string): (n: nat)
    ensures n <= |s|
  {
    |s| - |TrimStart(s)|
  }

  /** `trim()` returns the piece of its input that follows the leading blanks. */
  lemma {:induction false} TrimPiece(s: string)
    ensures LeadingBlanks(s) + |Trim(s)| <= |s|
    ensures Trim(s) == s[LeadingBlanks(s)..LeadingBlanks(s) + |Trim(s)|]
  {
    var a := TrimStart(s);
    var i := |s| - |a|;
    assert a == s[i..];
  }

  /** What `trim()` drops on either side is whitespace. */
  lemma {:induction false} TrimMargins(s: string)
    ensures IsBlank(s[..LeadingBlanks(s)])
    ensures LeadingBlanks(s) + |Trim(s)| <= |s| && IsBlank(s[LeadingBlanks(s) + |Trim(s)|..])
  {
    var a := TrimStart(s);
    var r := TrimEnd(a);
    var i := |s| - |a|;
    assert s[i + |r|..] == a[|r|..];
  }

  /** What `trim()` returns is a contiguous piece of its input, after the
      leading blanks, with only whitespace on either side and no whitespace
      at either end. */
  lemma {:induction false} TrimSpec(s: string)
    ensures IsTrimmed(Trim(s))
    ensures LeadingBlanks(s) + |Trim(s)| <= |s|
    ensures Trim(s) == s[LeadingBlanks(s)..LeadingBlanks(s) + |Trim(s)|]
    ensures IsBlank(s[..LeadingBlanks(s)])
    ensures IsBlank(s[LeadingBlanks(s) + |Trim(s)|..])
  {
    TrimPiece(s);
    TrimMargins(s);
  }

  /** A trimmed string is its own trim. */
  lemma {:induction false} TrimIdempotent(s: string)
    requires IsTrimmed(s)
    ensures Trim(s) == s
  {
  }

  /** `isBlank()` holds exactly when trimming leaves nothing. */
  lemma {:induction false} BlankIffTrimsToEmpty(s: string)
    ensures IsBlank(s) <==> Trim(s) == ""
  {
    var a := TrimStart(s);
    if a != [] {
      assert a[0] == s[|s| - |a|];
    }
  }

  /** The index of the first `c` in `s`, or `|s|` when `s` has none. */
  function FirstIndex(s: string, c: char): (i: nat)
    ensures i <= |s|
    ensures c !in s[..i]
    ensures i < |s| ==> s[i] == c
    ensures i == |s| <==> c !in s
  {
    if s == [] then 0
    else if s[0] == c then 0
    else
      assert s[1..][..FirstIndex(s[1..], c)] == s[1..1 + FirstIndex(s[1..], c)];
      1 + FirstIndex(s[1..], c)
  }

  /** The index of the last `c` in `s`, or `-1` when `s` has none. */
  function LastIndex(s: string, c: char): (i: int)
    ensures -1 <= i < |s|
    ensures c !in s[i + 1..]
    ensures 0 <= i ==> s[i] == c
    ensures i == -1 <==> c !in s
  {
    if s == [] then -1
    else if s[|s| - 1] == c then |s| - 1
    else
      var t := s[..|s| - 1];
      var j := LastIndex(t, c);
      assert s == t + [s[|s| - 1]];
      assert t[j + 1..] + [s[|s| - 1]] == s[j + 1..];
      j
  }

  /** `substringBefore(c)`: the text before the first `c`, or all of `s`. */
  function SubstringBefore(s: string, c: char): (r: string)
    ensures c !in r
    ensures r <= s
    ensures c in s ==> |r| < |s| && s[|r|] == c
    ensures r == s <==> c !in s
  {
    s[..FirstIndex(s, c)]
  }

  /** `substringAfter(c, missing)`: the text after the first `c`, or `missing`. */
  function SubstringAfter(s: string, c: char, missing: string): (r: string)
    ensures c in s ==> s == SubstringBefore(s, c) + [c] + r
    ensures c !in s ==> r == missing
  {
    var i := FirstIndex(s, c);
    if i < |s| then
      assert s == s[..i] + [c] + s[i + 1..];
      s[i + 1..]
    else missing
  }

  /** `substringAfterLast(c)`: the text after the last `c`, or all of `s`. */
  function SubstringAfterLast(s: string, c: char): (r: string)
    ensures c !in r
    ensures |r| <= |s| && r == s[|s| - |r|..]
    ensures c !in s ==> r == s
    ensures c in s ==> |r| < |s| && s[|s| - |r| - 1] == c
  {
    s[LastIndex(s, c) + 1..]
  }

  /** `split(c)` with no limit: every piece between the separators, empty
      pieces included, so there is one more piece than there are `c`s. */
  function Split(s: string, c: char): (parts: seq<string>)
    ensures |parts| >= 1
    ensures parts[0] == SubstringBefore(s, c)
    ensures c in s ==> |parts| >= 2 && parts[1..] == Split(SubstringAfter(s, c, ""), c)
    ensures forall k :: 0 <= k < |parts| ==> c !in parts[k]
    decreases |s|
  {
    if c in s then [SubstringBefore(s, c)] + Split(SubstringAfter(s, c, ""), c)
    else [s]
  }

  /** `joinToString(c)`: the pieces with a `c` between neighbours. */
  function Join(parts: seq<string>, c: char): string {
    if |parts| <= 1 then (if parts == [] then "" else parts[0])
    else parts[0] + [c] + Join(parts[1..], c)
  }

  /** Joining the pieces of a split gives back the original text. */
  lemma {:induction false} JoinSplit(s: string, c: char)
    ensures Join(Split(s, c), c) == s
    decreases |s|
  {
    if c in s {
      var rest := SubstringAfter(s, c, "");
      JoinSplit(rest, c);
    }
  }

  /** Text joined at a `c` that the left part lacks splits back at that `c`. */
  lemma {:induction false} SplitAtJoin(left: string, right: string, c: char)
    requires c !in left
    ensures SubstringBefore(left + [c] + right, c) == left
    ensures SubstringAfter(left + [c] + right, c, "") == right
  {
    var s := left + [c] + right;
    assert s[|left|] == c;
    assert s[..|left|] == left;
    assert FirstIndex(s, c) == |left|;
    assert s[|left| + 1..] == right;
  }

  /** `String.compareTo(...) < 0`: lexicographic order by character, a proper
      prefix coming first. */
  predicate Less(a: string, b: string)
    ensures Less(a, b) ==> a != b
    ensures a < b ==> Less(a, b)
    decreases |a|
  {
    if a == [] then b != []
    else if b == [] then false
    else if a[0] != b[0] then a[0] < b[0]
    else Less(a[1..], b[1..])
  }

  lemma {:induction false} LessTransitive(a: string, b: string, d: string)
    requires Less(a, b) && Less(b, d)
    ensures Less(a, d)
    decreases |a|
  {
    if a != [] && b != [] && d != [] && a[0] == b[0] && b[0] == d[0] {
      LessTransitive(a[1..], b[1..], d[1..]);
    }
  }

  lemma {:induction false} LessTotal(a: string, b: string)
    requires a != b
    ensures Less(a, b) || Less(b, a)
    decreases |a|
  {
    if a != [] && b != [] && a[0] == b[0] {
      assert a == [a[0]] + a[1..] && b == [b[0]] + b[1..];
      LessTotal(a[1..], b[1..]);
    }
  }
}
