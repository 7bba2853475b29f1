// Python string and slice semantics shared by every module of the model.
// Only the behaviour the modelled code relies on is defined here: slicing
// with possibly negative bounds, `str.split` on a one-character separator,
// `str.strip()`, ASCII `lower()`/`upper()`, `in` on strings, `endswith`,
// `str.join`, and SQL `LIMIT`.

module PyText {

  datatype Option<+T> = None | Some(value: T)

  datatype Result<+T, +E> = Ok(value: T) | Err(error: E)

  function Min(a: int, b: int): int { if a <= b then a else b }
  function Max(a: int, b: int): int { if a <= b then b else a }

  // ---------------------------------------------------------------------------
  // Slicing

  /** Python's `s[start:stop]` (step 1): negative bounds count from the end,
      and both bounds are clamped to the sequence. */
  function PySlice<T>(s: seq<T>, start: int, stop: int): (r: seq<T>)
    ensures |r| <= |s|
    ensures 0 <= start && 0 <= stop ==>
              r == s[Min(start, |s|)..Max(Min(start, |s|), Min(stop, |s|))]
    ensures stop < 0 && start == 0 ==> r == s[..Max(|s| + stop, 0)]
  {
    var lo := if start < 0 then Max(start + |s|, 0) else Min(start, |s|);
    var hi := if stop < 0 then Max(stop + |s|, 0) else Min(stop, |s|);
    if lo >= hi then [] else s[lo..hi]
  }

  /** SQL `LIMIT n`: a negative limit means no limit. */
  function Limit<T>(s: seq<T>, n: int): (r: seq<T>)
    ensures r <= s
    ensures |r| == if n < 0 then |s| else Min(n, |s|)
  {
    if n < 0 || n >= |s| then s else s[..n]
  }

  // ---------------------------------------------------------------------------
  // Characters

  /** The ASCII characters `str.isspace()` accepts and `str.strip()`
      removes: space, tab, line feed, vertical tab, form feed, carriage
      return and the four information separators 0x1c-0x1f. */
  predicate IsSpace(c: char) {
    c == ' ' || c == '\t' || c == '\n' || c == '\r' || c as int == 11 || c as int == 12
    || 28 <= c as int <= 31
  }

  function LowerChar(c: char): char {
    if 'A' <= c <= 'Z' then (c as int + 32) as char else c
  }

  function UpperChar(c: char): char {
    if 'a' <= c <= 'z' then (c as int - 32) as char else c
  }

  /** `str.lower()` on ASCII letters. */
  function Lower(s: string): (r: string)
    ensures |r| == |s|
    ensures forall i :: 0 <= i < |s| ==> r[i] == LowerChar(s[i])
  {
    seq(|s|, i requires 0 <= i < |s| => LowerChar(s[i]))
  }

  /** `str.upper()` on ASCII letters. */
  function Upper(s: string): (r: string)
    ensures |r| == |s|
  {
    seq(|s|, i requires 0 <= i < |s| => UpperChar(s[i]))
  }

  // ---------------------------------------------------------------------------
  // Searching

  /** Python's `sub in s`. */
  predicate Contains(s: string, sub: string) {
    exists i | 0 <= i <= |s| - |sub| :: OccursAt(s, sub, i)
  }

  /** `sub` occurs in `s` starting at index `i`. */
  predicate OccursAt(s: string, sub: string, i: int) {
    0 <= i <= |s| - |sub| && s[i..i + |sub|] == sub
  }

  lemma EmptyIsContained(s: string)
    ensures Contains(s, "")
  {
    assert OccursAt(s, "", 0);
  }

  /** `s.startswith(prefix)`. */
  predicate StartsWith(s: string, prefix: string) {
    |prefix| <= |s| && s[..|prefix|] == prefix
  }

  /** `s.endswith(suffix)`. */
  predicate EndsWith(s: string, suffix: string) {
    |suffix| <= |s| && s[|s| - |suffix|..] == suffix
  }

  /** Index of the last occurrence of `c` in `s`, or -1 (`str.rfind`). */
  function RFind(s: string, c: char): (r: int)
    ensures -1 <= r < |s|
    ensures 0 <= r ==> s[r] == c
    ensures forall k :: r < k < |s| ==> s[k] != c
  {
    if s == [] then -1
    else if s[|s| - 1] == c then |s| - 1
    else RFind(s[..|s| - 1], c)
  }

  /** Number of occurrences of `c` in `s`. */
  function Count(s: string, c: char): nat {
    if s == [] then 0 else (if s[0] == c then 1 else 0) + Count(s[1..], c)
  }

  // ---------------------------------------------------------------------------
  // Split, strip and join

  /** Python's `s.split(sep)` for a one-character separator: the pieces
      between separators, including empty ones. */
  function Split(s: string, sep: char): (r: seq<string>)
    ensures |r| >= 1
    ensures forall i :: 0 <= i < |r| ==> sep !in r[i]
  {
    if sep !in s then [s]
    else
      var k := FirstIndex(s, sep);
      [s[..k]] + Split(s[k + 1..], sep)
  }

  function FirstIndex(s: string, c: char): (k: nat)
    requires c in s
    ensures k < |s| && s[k] == c && c !in s[..k]
  {
    if s[0] == c then 0 else 1 + FirstIndex(s[1..], c)
  }

  /** `sep.join(parts)` for a one-character separator. */
  function JoinChar(sep: char, parts: seq<string>): string {
    if parts == [] then ""
    else if |parts| == 1 then parts[0]
    else parts[0] + [sep] + JoinChar(sep, parts[1..])
  }

  /** `sep.join(parts)`. */
  function Join(sep: string, parts: seq<string>): string {
    if parts == [] then ""
    else if |parts| == 1 then parts[0]
    else parts[0] + sep + Join(sep, parts[1..])
  }

  /** Splitting on a character and joining the pieces back gives the
      original string, and there is one more piece than separators. */
  lemma {:induction false} SplitJoin(s: string, sep: char)
    ensures JoinChar(sep, Split(s, sep)) == s
    decreases |s|
  {
    if sep in s {
      var k := FirstIndex(s, sep);
      var rest := s[k + 1..];
      SplitJoin(rest, sep);
      var pieces := Split(rest, sep);
      assert Split(s, sep) == [s[..k]] + pieces;
      JoinCharCons(sep, s[..k], pieces);
      SplitAround(s, k);
    }
  }

  lemma JoinCharCons(sep: char, head: string, tail: seq<string>)
    requires tail != []
    ensures JoinChar(sep, [head] + tail) == head + [sep] + JoinChar(sep, tail)
  {
    assert ([head] + tail)[1..] == tail;
  }

  lemma SplitAround(s: string, k: nat)
    requires k < |s|
    ensures s[..k] + [s[k]] + s[k + 1..] == s
  {
  }

  /** `s.split(sep)` has one more piece than `s` has separators. */
  lemma {:induction false} SplitCount(s: string, sep: char)
    ensures |Split(s, sep)| == Count(s, sep) + 1
    decreases |s|
  {
    if sep !in s {
      CountAbsent(s, sep);
    } else {
      var k := FirstIndex(s, sep);
      var rest := s[k + 1..];
      SplitCount(rest, sep);
      assert s == s[..k] + ([sep] + rest);
      CountAbsent(s[..k], sep);
      CountConcat(s[..k], [sep] + rest, sep);
      assert ([sep] + rest)[1..] == rest;
    }
  }

  lemma {:induction false} CountAbsent(s: string, c: char)
    requires c !in s
    ensures Count(s, c) == 0
  {
    if s != [] {
      CountAbsent(s[1..], c);
    }
  }

  lemma {:induction false} CountConcat(a: string, b: string, c: char)
    ensures Count(a + b, c) == Count(a, c) + Count(b, c)
  {
    if a != [] {
      assert (a + b)[1..] == a[1..] + b;
      CountConcat(a[1..], b, c);
    } else {
      assert a + b == b;
    }
  }

  /** Joining a non-empty list with one more part appends the separator and
      the part: `sep.join` keeps the parts in order. */
  lemma {:induction false} JoinSnoc(sep: string, parts: seq<string>, last: string)
    requires parts != []
    ensures Join(sep, parts + [last]) == Join(sep, parts) + sep + last
  {
    if |parts| == 1 {
      assert parts + [last] == [parts[0], last];
    } else {
      assert (parts + [last])[1..] == parts[1..] + [last];
      JoinSnoc(sep, parts[1..], last);
    }
  }

  /** A join of parts that are all non-empty is empty exactly when there
      are no parts. */
  lemma {:induction false} JoinEmptyIff(sep: string, parts: seq<string>)
    requires forall i :: 0 <= i < |parts| ==> parts[i] != ""
    ensures Join(sep, parts) == "" <==> parts == []
  {
    if |parts| > 1 {
      assert |Join(sep, parts)| >= |parts[0]| > 0;
    }
  }

  function StripLeft(s: string): (r: string)
    ensures |r| <= |s| && r == s[|s| - |r|..]
    ensures r != [] ==> !IsSpace(r[0])
    ensures forall i :: 0 <= i < |s| - |r| ==> IsSpace(s[i])
  {
    if s != [] && IsSpace(s[0]) then StripLeft(s[1..]) else s
  }

  function StripRight(s: string): (r: string)
    ensures |r| <= |s| && r == s[..|r|]
    ensures r != [] ==> !IsSpace(r[|r| - 1])
    ensures forall i :: |r| <= i < |s| ==> IsSpace(s[i])
  {
    if s != [] && IsSpace(s[|s| - 1]) then StripRight(s[..|s| - 1]) else s
  }

  /** `r` occurs in `s` at `i` and everything around it is whitespace. */
  predicate StrippedAt(s: string, r: string, i: int) {
    OccursAt(s, r, i)
    && (forall j :: 0 <= j < i ==> IsSpace(s[j]))
    && (forall j :: i + |r| <= j < |s| ==> IsSpace(s[j]))
  }

  /** `s.strip()`: the infix left once all leading and trailing whitespace
      is removed. What is removed is whitespace, and what is left is empty
      or begins and ends with a non-space, so no more could be removed. */
  function Strip(s: string): (r: string)
    ensures exists i :: StrippedAt(s, r, i)
    ensures exists i :: OccursAt(s, r, i)
    ensures r != [] ==> !IsSpace(r[0]) && !IsSpace(r[|r| - 1])
  {
    var l := StripLeft(s);
    var r := StripRight(l);
    InfixAmidSpace(s, l, r);
    r
  }

  /** A prefix `r` of a suffix `l` of `s`, where whitespace alone precedes
      `l` in `s` and follows `r` in `l`, is surrounded only by whitespace. */
  lemma InfixAmidSpace(s: string, l: string, r: string)
    requires |l| <= |s| && l == s[|s| - |l|..]
    requires forall k :: 0 <= k < |s| - |l| ==> IsSpace(s[k])
    requires |r| <= |l| && r == l[..|r|]
    requires forall k :: |r| <= k < |l| ==> IsSpace(l[k])
    ensures StrippedAt(s, r, |s| - |l|)
  {
    var i := |s| - |l|;
    InfixOfSuffixPrefix(s, l, r);
    forall j | i + |r| <= j < |s|
      ensures IsSpace(s[j])
    {
      assert s[j] == l[j - i];
    }
  }

  /** A prefix `r` of a suffix `l` of `s` occurs in `s` where `l` starts,
      and starts with the first element of `l`. */
  lemma InfixOfSuffixPrefix<T>(s: seq<T>, l: seq<T>, r: seq<T>)
    requires |l| <= |s| && l == s[|s| - |l|..]
    requires |r| <= |l| && r == l[..|r|]
    ensures 0 <= |s| - |l| <= |s| - |r|
    ensures s[|s| - |l|..|s| - |l| + |r|] == r
    ensures r != [] ==> r[0] == l[0]
  {
  }

  // ---------------------------------------------------------------------------
  // Module namespaces

  /** What `from m import a, b, ...` did: bound every name, or raised
      `ImportError` for the first name `m` does not bind. */
  datatype ImportOutcome = Imported | ImportError(name: string)

  /** `from m import wanted...` against the names `bound` that module `m`
      binds at top level: the names are looked up in order and the first
      missing one raises. */
  function FromImport(bound: set<string>, wanted: seq<string>): (r: ImportOutcome)
    ensures r == Imported <==> forall i :: 0 <= i < |wanted| ==> wanted[i] in bound
    ensures r.ImportError? ==> r.name in wanted && r.name !in bound
    ensures wanted != [] && wanted[0] !in bound ==> r == ImportError(wanted[0])
  {
    if wanted == [] then Imported
    else if wanted[0] !in bound then ImportError(wanted[0])
    else FromImport(bound, wanted[1..])
  }

  /** Characters of `set` removed from the right end (`s.rstrip(chars)`). */
  function RStripChars(s: string, chars: set<char>): (r: string)
    ensures |r| <= |s| && r == s[..|r|]
    ensures r != [] ==> r[|r| - 1] !in chars
    ensures forall i :: |r| <= i < |s| ==> s[i] in chars
  {
    if s != [] && s[|s| - 1] in chars then RStripChars(s[..|s| - 1], chars) else s
  }
}
