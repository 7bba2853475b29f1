// git_watcher.py: the settings, the parsing of `git log` output, the
// (hash, repo) de-duplicating insert of `scan_and_log` with its `repo_name`
// and `repo_dir` columns, the pruned walk of `discover_git_repos` over an
// abstract directory tree, and the per-repository grouping of
// `get_all_repositories_with_commits`.

module GitWatcher {
  import opened PyText
  import opened Utils
  import Watcher

  // ---------------------------------------------------------------------------
  // Settings

  /** `os.environ.get("GIT_AUTO_DISCOVER", "true").lower() == "true"`. */
  function AutoDiscover(setting: Option<string>): bool {
    Lower(if setting.Some? then setting.value else "true") == "true"
  }

  /** Auto-discovery is on when the setting is unset or is "true" in any
      letter case, and off for every other value, the empty one included. */
  lemma AutoDiscoverCases(value: string)
    ensures AutoDiscover(None)
    ensures AutoDiscover(Some("TRUE")) && AutoDiscover(Some("True"))
    ensures !AutoDiscover(Some(""))
    ensures AutoDiscover(Some(value)) <==>
              |value| == 4 && forall i :: 0 <= i < 4 ==> value[i] == "true"[i] || value[i] == "TRUE"[i]
  {
    assert Lower("TRUE") == "true";
    assert Lower("True") == "true";
    if |value| == 4 && forall i :: 0 <= i < 4 ==> value[i] == "true"[i] || value[i] == "TRUE"[i] {
      assert Lower(value) == "true";
    }
    if AutoDiscover(Some(value)) {
      forall i | 0 <= i < 4
        ensures value[i] == "true"[i] || value[i] == "TRUE"[i]
      {
        assert LowerChar(value[i]) == "true"[i];
      }
    }
  }

  /** The names git_watcher.py binds at top level when imported: its
      imports, its five settings and its five functions. There is no
      `get_recent_commits`. */
  const MODULE_NAMES: set<string> :=
    {"os", "sqlite3", "subprocess", "time", "load_dotenv",
     "EVENT_DB", "GIT_AUTO_DISCOVER", "WATCH_PATHS", "GIT_WATCH_PATHS", "POLL_INTERVAL",
     "init_db", "discover_git_repos", "get_commit_history", "scan_and_log",
     "get_all_repositories_with_commits"}

  // ---------------------------------------------------------------------------
  // Parsing `git log --pretty=format:%H|%an|%ad|%s`

  /** `s.split(sep, n)`: at most `n` splits, taken from the left; the last
      piece keeps any further separators. */
  function SplitMax(s: string, sep: char, n: nat): (r: seq<string>)
    ensures 1 <= |r| <= n + 1
  {
    if n == 0 || sep !in s then [s]
    else
      var k := FirstIndex(s, sep);
      [s[..k]] + SplitMax(s[k + 1..], sep, n - 1)
  }

  /** Every piece but the last is free of the separator. */
  lemma {:induction false} SplitMaxPiecesFree(s: string, sep: char, n: nat)
    ensures forall i :: 0 <= i < |SplitMax(s, sep, n)| - 1 ==> sep !in SplitMax(s, sep, n)[i]
    decreases n
  {
    if n > 0 && sep in s {
      var k := FirstIndex(s, sep);
      var head := s[..k];
      var tail := SplitMax(s[k + 1..], sep, n - 1);
      SplitMaxPiecesFree(s[k + 1..], sep, n - 1);
      var r := SplitMax(s, sep, n);
      assert r == [head] + tail;
      forall i | 0 <= i < |r| - 1 ensures sep !in r[i] {
        if i == 0 {
          assert r[i] == head;
          assert sep !in head;
        } else {
          assert r[i] == tail[i - 1];
          assert i - 1 < |tail| - 1;
          assert sep !in tail[i - 1];
        }
      }
    }
  }

  /** Splitting at most `n` times makes `min(n, count)` splits. */
  lemma {:induction false} SplitMaxCount(s: string, sep: char, n: nat)
    ensures |SplitMax(s, sep, n)| == Min(n, Count(s, sep)) + 1
    decreases n
  {
    if n == 0 || sep !in s {
      SplitMaxCountBase(s, sep, n);
    } else {
      SplitMaxCount(s[FirstIndex(s, sep) + 1..], sep, n - 1);
      SplitMaxCountStep(s, sep, n);
    }
  }

  lemma SplitMaxCountBase(s: string, sep: char, n: nat)
    requires n == 0 || sep !in s
    ensures |SplitMax(s, sep, n)| == Min(n, Count(s, sep)) + 1
  {
    if sep !in s {
      CountAbsent(s, sep);
    }
  }

  lemma SplitMaxCountStep(s: string, sep: char, n: nat)
    requires sep in s && n > 0
    requires var rest := s[FirstIndex(s, sep) + 1..];
             |SplitMax(rest, sep, n - 1)| == Min(n - 1, Count(rest, sep)) + 1
    ensures |SplitMax(s, sep, n)| == Min(n, Count(s, sep)) + 1
  {
    var rest := s[FirstIndex(s, sep) + 1..];
    SplitMaxStep(s, sep, n);
    CountAtFirst(s, sep);
    MinStep(n, Count(s, sep), Count(rest, sep));
  }

  lemma MinStep(n: int, a: int, b: int)
    requires n > 0 && a == 1 + b
    ensures Min(n, a) == 1 + Min(n - 1, b)
  {
  }

  lemma SplitMaxStep(s: string, sep: char, n: nat)
    requires sep in s && n > 0
    ensures |SplitMax(s, sep, n)| == 1 + |SplitMax(s[FirstIndex(s, sep) + 1..], sep, n - 1)|
  {
  }

  /** The separator found first is one of the string's separators, and the
      rest of them lie after it. */
  lemma CountAtFirst(s: string, sep: char)
    requires sep in s
    ensures Count(s, sep) == 1 + Count(s[FirstIndex(s, sep) + 1..], sep)
  {
    var k := FirstIndex(s, sep);
    var rest := s[k + 1..];
    assert s == s[..k] + ([sep] + rest);
    CountAbsent(s[..k], sep);
    CountConcat(s[..k], [sep] + rest, sep);
    assert ([sep] + rest)[1..] == rest;
  }

  /** Joining the pieces with the separator gives the string back. */
  lemma {:induction false} SplitMaxJoin(s: string, sep: char, n: nat)
    ensures JoinChar(sep, SplitMax(s, sep, n)) == s
    decreases n
  {
    if n == 0 || sep !in s {
      SplitMaxWhole(s, sep, n);
    } else {
      SplitMaxJoin(s[FirstIndex(s, sep) + 1..], sep, n - 1);
      SplitMaxJoinStep(s, sep, n);
    }
  }

  /** With no split left or no separator, the string is its only piece. */
  lemma SplitMaxWhole(s: string, sep: char, n: nat)
    requires n == 0 || sep !in s
    ensures SplitMax(s, sep, n) == [s]
  {
  }

  lemma SplitMaxJoinStep(s: string, sep: char, n: nat)
    requires sep in s && n > 0
    requires JoinChar(sep, SplitMax(s[FirstIndex(s, sep) + 1..], sep, n - 1)) == s[FirstIndex(s, sep) + 1..]
    ensures JoinChar(sep, SplitMax(s, sep, n)) == s
  {
    var k := FirstIndex(s, sep);
    var tail := SplitMax(s[k + 1..], sep, n - 1);
    assert SplitMax(s, sep, n) == [s[..k]] + tail;
    JoinCharCons(sep, s[..k], tail);
    SplitAround(s, k);
  }

  /** The fields of one commit line. */
  datatype Commit = Commit(hash: string, author: string, date: string, message: string)

  /** `parts = line.split("|", 3)`, kept when there are four parts. */
  function ParseLine(line: string): (r: Option<Commit>)
    ensures r.Some? ==> '|' !in r.value.hash && '|' !in r.value.author && '|' !in r.value.date
  {
    var parts := SplitMax(line, '|', 3);
    SplitMaxPiecesFree(line, '|', 3);
    if |parts| == 4 then Some(Commit(parts[0], parts[1], parts[2], parts[3])) else None
  }

  /** How `%H|%an|%ad|%s` lays out a commit. */
  function FormatCommit(c: Commit): string {
    c.hash + "|" + c.author + "|" + c.date + "|" + c.message
  }

  /** A line is a commit iff it has at least three `|`; then hash, author and
      date hold no `|`, and the fields laid out again give the line. */
  lemma ParseLineIff(line: string)
    ensures ParseLine(line).Some? <==> Count(line, '|') >= 3
    ensures ParseLine(line).Some? ==>
              var c := ParseLine(line).value;
              && '|' !in c.hash && '|' !in c.author && '|' !in c.date
              && FormatCommit(c) == line
  {
    SplitMaxCount(line, '|', 3);
    SplitMaxJoin(line, '|', 3);
    SplitMaxPiecesFree(line, '|', 3);
    var parts := SplitMax(line, '|', 3);
    if |parts| == 4 {
      JoinFour('|', parts);
    }
  }

  lemma JoinFour(sep: char, parts: seq<string>)
    requires |parts| == 4
    ensures JoinChar(sep, parts) == parts[0] + [sep] + parts[1] + [sep] + parts[2] + [sep] + parts[3]
  {
    assert parts[1..][1..][1..] == [parts[3]];
    assert JoinChar(sep, parts[2..]) == parts[2] + [sep] + parts[3];
    assert JoinChar(sep, parts[1..]) == parts[1] + [sep] + (parts[2] + [sep] + parts[3]);
  }

  /** Laying a commit out and parsing it back gives the same commit, for any
      message (which may itself hold `|`) and fields free of `|`. */
  lemma {:induction false} FormatThenParse(c: Commit)
    requires '|' !in c.hash && '|' !in c.author && '|' !in c.date
    ensures ParseLine(FormatCommit(c)) == Some(c)
  {
    var s2 := c.date + "|" + c.message;
    var s1 := c.author + "|" + s2;
    calc {
      SplitMax(FormatCommit(c), '|', 3);
      { assert FormatCommit(c) == c.hash + "|" + s1; }
      SplitMax(c.hash + "|" + s1, '|', 3);
      { SplitAtFirst(c.hash, s1, 3); }
      [c.hash] + SplitMax(s1, '|', 2);
      { SplitAtFirst(c.author, s2, 2); }
      [c.hash] + ([c.author] + SplitMax(s2, '|', 1));
      { SplitAtFirst(c.date, c.message, 1); }
      [c.hash] + ([c.author] + ([c.date] + SplitMax(c.message, '|', 0)));
      [c.hash, c.author, c.date, c.message];
    }
  }

  /** Splitting `a + "|" + b` with `a` free of `|` takes `a` as the first
      piece and goes on in `b`. */
  lemma SplitAtFirst(a: string, b: string, n: nat)
    requires '|' !in a && n > 0
    ensures SplitMax(a + "|" + b, '|', n) == [a] + SplitMax(b, '|', n - 1)
  {
    var s := a + "|" + b;
    assert s[|a|] == '|';
    assert s[..|a|] == a;
    var k := FirstIndex(s, '|');
    assert k == |a|;
    assert s[k + 1..] == b;
  }

  /** The line boundaries of Python's `str.splitlines()`. */
  predicate IsLineBreak(c: char) {
    c == '\n' || c == '\r' || c as int == 0x0b || c as int == 0x0c
    || c as int == 0x1c || c as int == 0x1d || c as int == 0x1e
    || c as int == 0x85 || c as int == 0x2028 || c as int == 0x2029
  }

  /** Index of the first line boundary of `s`, or `|s|`. */
  function FirstBreak(s: string): (k: nat)
    ensures k <= |s|
    ensures k < |s| ==> IsLineBreak(s[k])
    ensures forall i :: 0 <= i < k ==> !IsLineBreak(s[i])
  {
    if s == [] || IsLineBreak(s[0]) then 0 else 1 + FirstBreak(s[1..])
  }

  /** `s.splitlines()`: the lines without their boundaries, `\r\n` counting
      as one boundary, and no empty piece after a final boundary. */
  function SplitLines(s: string): (r: seq<string>)
    ensures forall i :: 0 <= i < |r| ==> forall j :: 0 <= j < |r[i]| ==> !IsLineBreak(r[i][j])
    decreases |s|
  {
    if s == [] then []
    else
      var k := FirstBreak(s);
      if k == |s| then [s]
      else
        var next := if s[k] == '\r' && k + 1 < |s| && s[k + 1] == '\n' then k + 2 else k + 1;
        [s[..k]] + SplitLines(s[next..])
  }

  /** Terminating each of a list of lines with `\n` and splitting the text
      gives the lines back. */
  lemma {:induction false} SplitLinesOfTerminated(lines: seq<string>)
    requires forall i :: 0 <= i < |lines| ==> forall j :: 0 <= j < |lines[i]| ==> !IsLineBreak(lines[i][j])
    ensures SplitLines(Terminated(lines)) == lines
  {
    if lines != [] {
      var rest := lines[1..];
      SplitLinesOfTerminated(rest);
      SplitLinesCons(lines[0], Terminated(rest));
      assert lines == [lines[0]] + rest;
    }
  }

  /** A line free of boundaries followed by `\n` splits off as the first
      line. */
  lemma SplitLinesCons(x: string, t: string)
    requires forall j :: 0 <= j < |x| ==> !IsLineBreak(x[j])
    ensures SplitLines(x + "\n" + t) == [x] + SplitLines(t)
  {
    var s := x + "\n" + t;
    FirstBreakOfLine(x, t);
    assert s[..|x|] == x;
    assert s[|x| + 1..] == t;
  }

  lemma FirstBreakOfLine(x: string, t: string)
    requires forall j :: 0 <= j < |x| ==> !IsLineBreak(x[j])
    ensures FirstBreak(x + "\n" + t) == |x|
  {
    var s := x + "\n" + t;
    assert s[|x|] == '\n';
    assert forall i :: 0 <= i < |x| ==> s[i] == x[i];
  }

  /** Each line followed by `\n`. */
  function Terminated(lines: seq<string>): string {
    if lines == [] then "" else lines[0] + "\n" + Terminated(lines[1..])
  }

  /** The commits parsed from a list of lines, in line order. */
  function ParsedCommits(lines: seq<string>): (r: seq<Commit>)
    ensures |r| <= |lines|
  {
    if lines == [] then []
    else
      var last := ParseLine(lines[|lines| - 1]);
      ParsedCommits(lines[..|lines| - 1]) + (if last.Some? then [last.value] else [])
  }

  /** A commit is listed iff one of the lines parses to it. */
  lemma {:induction false} ParsedCommitsFromLines(lines: seq<string>)
    ensures forall c :: c in ParsedCommits(lines) <==>
              exists i :: 0 <= i < |lines| && ParseLine(lines[i]) == Some(c)
  {
    if lines != [] {
      var n := |lines| - 1;
      ParsedCommitsFromLines(lines[..n]);
      forall c ensures c in ParsedCommits(lines) <==> exists i :: 0 <= i < |lines| && ParseLine(lines[i]) == Some(c) {
        if c in ParsedCommits(lines) && c !in ParsedCommits(lines[..n]) {
          assert ParseLine(lines[n]) == Some(c);
        }
        if exists i :: 0 <= i < |lines| && ParseLine(lines[i]) == Some(c) {
          var i :| 0 <= i < |lines| && ParseLine(lines[i]) == Some(c);
          if i < n {
            assert lines[..n][i] == lines[i];
          }
        }
      }
    }
  }

  /** `get_commit_history(repo)`: `log` is the output of `git log`, or None
      when the command fails. */
  method GetCommitHistory(log: Option<string>) returns (commits: seq<Commit>)
    ensures log.None? ==> commits == []
    ensures log.Some? ==> commits == ParsedCommits(SplitLines(log.value))
  {
    if log.None? {
      return [];
    }
    var lines := SplitLines(log.value);
    commits := [];
    var i := 0;
    while i < |lines|
      invariant 0 <= i <= |lines|
      invariant commits == ParsedCommits(lines[..i])
    {
      var parsed := ParseLine(lines[i]);
      if parsed.Some? {
        commits := commits + [parsed.value];
      }
      assert lines[..i + 1][..i] == lines[..i];
      i := i + 1;
    }
    assert lines[..i] == lines;
  }

  // ---------------------------------------------------------------------------
  // Paths: `os.path` on Windows (`ntpath`), where both `/` and `\` separate

  const SEPS: set<char> := {'/', '\\'}

  /** `ntpath.splitdrive` for drive-letter paths: a second character `:`
      makes the first two characters the drive. */
  function SplitDrive(p: string): (r: (string, string))
    ensures r.0 + r.1 == p
    ensures |r.0| <= 2
  {
    if |p| >= 2 && p[1] == ':' then (p[..2], p[2..]) else ("", p)
  }

  /** Length of the prefix of `s` that ends with its last separator (0 when
      there is none). */
  function AfterLastSep(s: string): (i: nat)
    ensures i <= |s|
    ensures i > 0 ==> IsSep(s[i - 1])
    ensures forall k :: i <= k < |s| ==> !IsSep(s[k])
  {
    if s == [] then 0 else if IsSep(s[|s| - 1]) then |s| else AfterLastSep(s[..|s| - 1])
  }

  /** `ntpath.split(p)`: the head keeps the drive and loses its trailing
      separators unless it is nothing but separators; the tail is the last
      component. */
  function NtSplit(p: string): (string, string) {
    var drive := SplitDrive(p).0;
    var rest := SplitDrive(p).1;
    var i := AfterLastSep(rest);
    (drive + StripHead(rest[..i]), rest[i..])
  }

  /** The head loses its trailing separators unless it is nothing but
      separators. */
  function StripHead(head: string): string {
    var stripped := RStripChars(head, SEPS);
    if stripped == "" then head else stripped
  }

  /** `os.path.basename(repo.rstrip("\\/"))`: the `repo_name` column. */
  function RepoName(repo: string): (r: string)
    ensures forall k :: 0 <= k < |r| ==> !IsSep(r[k])
  {
    NtSplit(RStripChars(repo, SEPS)).1
  }

  /** `os.path.dirname(repo)`: the `repo_dir` column, taken from the path as
      given, trailing separators included. */
  function RepoDir(repo: string): string {
    NtSplit(repo).0
  }

  lemma {:induction false} AfterLastSepOfChild(parent: string, sep: char, name: string)
    requires IsSep(sep)
    requires forall k :: 0 <= k < |name| ==> !IsSep(name[k])
    ensures AfterLastSep(parent + [sep] + name) == |parent| + 1
    decreases |name|
  {
    var p := parent + [sep] + name;
    if name == [] {
      assert p[|p| - 1] == sep;
    } else {
      var init := name[..|name| - 1];
      assert p[..|p| - 1] == parent + [sep] + init;
      assert p[|p| - 1] == name[|name| - 1];
      AfterLastSepOfChild(parent, sep, init);
    }
  }

  lemma {:induction false} RStripSeps(s: string, trailing: string)
    requires forall k :: 0 <= k < |trailing| ==> IsSep(trailing[k])
    ensures RStripChars(s + trailing, SEPS) == RStripChars(s, SEPS)
    decreases |trailing|
  {
    if trailing != [] {
      var t := trailing[..|trailing| - 1];
      assert (s + trailing)[..|s + trailing| - 1] == s + t;
      RStripSeps(s, t);
    } else {
      assert s + trailing == s;
    }
  }

  /** A drive split off `parent + suffix`, where the suffix starts with a
      separator, lies inside `parent`. */
  lemma DriveWithin(parent: string, suffix: string)
    requires parent != "" && suffix != [] && IsSep(suffix[0])
    ensures |SplitDrive(parent + suffix).0| <= |parent|
    ensures SplitDrive(parent + suffix).0 == parent[..|SplitDrive(parent + suffix).0|]
    ensures SplitDrive(parent + suffix).1 == parent[|SplitDrive(parent + suffix).0|..] + suffix
  {
    var p := parent + suffix;
    if |parent| == 1 && |p| >= 2 {
      assert p[1] == suffix[0];
    }
    var d := SplitDrive(p).0;
    assert p[..|d|] == parent[..|d|];
    assert p[|d|..] == parent[|d|..] + suffix;
  }

  /** Splitting `pre`, a separator and `name` puts `pre` and the separator
      in the head and `name` in the tail. */
  lemma SplitChild(pre: string, sep: char, name: string)
    requires IsSep(sep)
    requires forall k :: 0 <= k < |name| ==> !IsSep(name[k])
    ensures var i := AfterLastSep(pre + [sep] + name);
            (pre + [sep] + name)[..i] == pre + [sep] && (pre + [sep] + name)[i..] == name
  {
    AfterLastSepOfChild(pre, sep, name);
  }

  /** The name of a repository is its last path component, whatever
      separator precedes it and whatever separators follow it:
      `C:\\code\\app\\` and `C:/code/app` both give `app`. */
  lemma RepoNameOfChild(parent: string, sep: char, name: string, trailing: string)
    requires parent != "" && name != "" && sep in SEPS
    requires forall k :: 0 <= k < |name| ==> !IsSep(name[k])
    requires forall k :: 0 <= k < |trailing| ==> IsSep(trailing[k])
    ensures RepoName(parent + [sep] + name + trailing) == name
  {
    var p := parent + [sep] + name;
    RStripSeps(p, trailing);
    assert RStripChars(p, SEPS) == p by {
      assert p[|p| - 1] == name[|name| - 1];
    }
    DriveWithin(parent, [sep] + name);
    assert p == parent + ([sep] + name);
    var pre := parent[|SplitDrive(p).0|..];
    assert SplitDrive(p).1 == pre + [sep] + name;
    SplitChild(pre, sep, name);
  }

  /** A head `pre` plus one separator, with `pre` not ending in a
      separator, strips to `pre`. */
  lemma StripHeadOfDir(pre: string, sep: char)
    requires pre != "" && !IsSep(pre[|pre| - 1]) && IsSep(sep)
    ensures StripHead(pre + [sep]) == pre
  {
    RStripSeps(pre, [sep]);
  }

  /** The directory of `parent`, a separator and `name` is `parent` when
      `parent` does not end in a separator and is not a bare drive:
      `C:\\code\\app` gives `C:\\code`. */
  lemma RepoDirOfChild(parent: string, sep: char, name: string)
    requires parent != "" && !IsSep(parent[|parent| - 1]) && sep in SEPS
    requires !(|parent| == 2 && parent[1] == ':')
    requires forall k :: 0 <= k < |name| ==> !IsSep(name[k])
    ensures RepoDir(parent + [sep] + name) == parent
  {
    var p := parent + [sep] + name;
    DriveWithin(parent, [sep] + name);
    assert p == parent + ([sep] + name);
    var drive := SplitDrive(p).0;
    var pre := parent[|drive|..];
    assert |drive| < |parent|;
    assert SplitDrive(p).1 == pre + [sep] + name;
    SplitChild(pre, sep, name);
    assert pre[|pre| - 1] == parent[|parent| - 1];
    StripHeadOfDir(pre, sep);
    assert drive + pre == parent by {
      assert drive == parent[..|drive|];
      assert parent[..|drive|] + parent[|drive|..] == parent;
    }
  }

  /** `repo_dir` does not strip trailing separators the way `repo_name`
      does: for `parent\\name\\` it is `parent\\name`, not `parent`, with
      either separator in either place. */
  lemma RepoDirOfTrailingSeparator(parent: string, sep: char, name: string, last: char)
    requires parent != "" && name != "" && sep in SEPS && last in SEPS
    requires forall k :: 0 <= k < |name| ==> !IsSep(name[k])
    ensures RepoDir(parent + [sep] + name + [last]) == parent + [sep] + name
  {
    var q := parent + [sep] + name;
    DriveWithin(q, [last]);
    var drive := SplitDrive(q + [last]).0;
    var pre := q[|drive|..];
    assert pre[|pre| - 1] == name[|name| - 1];
    SplitChild(pre, last, "");
    assert pre + [last] + "" == pre + [last];
    StripHeadOfDir(pre, last);
    assert drive + pre == q;
  }


  // ---------------------------------------------------------------------------
  // The `git_commits` table and `scan_and_log`

  /** One row of `git_commits` (the AUTOINCREMENT id, which nothing reads,
      is not kept). */
  datatype CommitRow = CommitRow(repo: string, repoName: string, repoDir: string,
                                 hash: string, author: string, date: string,
                                 message: string, timestamp: real)

  /** The row `scan_and_log` inserts for commit `c` of `repo` at time `ts`. */
  function RowFor(repo: string, c: Commit, ts: real): CommitRow {
    CommitRow(repo, RepoName(repo), RepoDir(repo), c.hash, c.author, c.date, c.message, ts)
  }

  /** `SELECT 1 FROM git_commits WHERE commit_hash=? AND repo=?` finds a row. */
  predicate Known(rows: seq<CommitRow>, hash: string, repo: string) {
    exists i :: 0 <= i < |rows| && rows[i].hash == hash && rows[i].repo == repo
  }

  /** No two rows share a (commit hash, repository) pair. */
  ghost predicate UniquePairs(rows: seq<CommitRow>) {
    forall i, j :: 0 <= i < j < |rows| ==> !(rows[i].hash == rows[j].hash && rows[i].repo == rows[j].repo)
  }

  /** The table after the insert loop over the commits of one repository;
      `clock(n)` is the time read when the table holds `n` rows. */
  function LogCommits(rows: seq<CommitRow>, repo: string, commits: seq<Commit>, clock: int -> real): (r: seq<CommitRow>)
    ensures rows <= r
  {
    if commits == [] then rows
    else
      var before := LogCommits(rows, repo, commits[..|commits| - 1], clock);
      var c := commits[|commits| - 1];
      if Known(before, c.hash, repo) then before else before + [RowFor(repo, c, clock(|before|))]
  }

  lemma KnownInLonger(a: seq<CommitRow>, b: seq<CommitRow>, hash: string, repo: string)
    requires a <= b && Known(a, hash, repo)
    ensures Known(b, hash, repo)
  {
    var i :| 0 <= i < |a| && a[i].hash == hash && a[i].repo == repo;
    assert b[i] == a[i];
  }

  /** After the loop every commit of the repository is in the table. */
  lemma {:induction false} LogCommitsRecordsAll(rows: seq<CommitRow>, repo: string, commits: seq<Commit>, clock: int -> real)
    ensures forall c :: c in commits ==> Known(LogCommits(rows, repo, commits, clock), c.hash, repo)
  {
    if commits != [] {
      var init := commits[..|commits| - 1];
      var c := commits[|commits| - 1];
      LogCommitsRecordsAll(rows, repo, init, clock);
      var before := LogCommits(rows, repo, init, clock);
      var after := LogCommits(rows, repo, commits, clock);
      LogCommitsStep(rows, repo, commits, clock);
      forall c' | c' in commits ensures Known(after, c'.hash, repo) {
        if c' in init {
          KnownInLonger(before, after, c'.hash, repo);
        } else {
          assert c' == c;
          if !Known(before, c.hash, repo) {
            assert after[|before|] == RowFor(repo, c, clock(|before|));
          }
        }
      }
    }
  }

  /** The loop never gives one (hash, repository) pair a second row. */
  lemma {:induction false} LogCommitsKeepsPairsUnique(rows: seq<CommitRow>, repo: string, commits: seq<Commit>,
                                                      clock: int -> real)
    requires UniquePairs(rows)
    ensures UniquePairs(LogCommits(rows, repo, commits, clock))
  {
    if commits != [] {
      var init := commits[..|commits| - 1];
      var c := commits[|commits| - 1];
      LogCommitsKeepsPairsUnique(rows, repo, init, clock);
      var before := LogCommits(rows, repo, init, clock);
      LogCommitsStep(rows, repo, commits, clock);
      if !Known(before, c.hash, repo) {
        UniqueSnoc(before, RowFor(repo, c, clock(|before|)));
      }
    }
  }

  lemma UniqueSnoc(before: seq<CommitRow>, row: CommitRow)
    requires UniquePairs(before) && !Known(before, row.hash, row.repo)
    ensures UniquePairs(before + [row])
  {
    var after := before + [row];
    forall i, j | 0 <= i < j < |after|
      ensures !(after[i].hash == after[j].hash && after[i].repo == after[j].repo)
    {
      assert after[i] == before[i];
      if j < |before| {
        assert after[j] == before[j];
      }
    }
  }

  /** `row` is the row logged at time `ts` for a commit of `commits` that
      `rows` did not hold. */
  ghost predicate NewCommitRow(rows: seq<CommitRow>, row: CommitRow, repo: string, commits: seq<Commit>, ts: real) {
    exists j :: 0 <= j < |commits| && !Known(rows, commits[j].hash, repo) && row == RowFor(repo, commits[j], ts)
  }

  /** Rows `|rows|..` of `after` are each a commit of `commits` that `rows`
      did not hold, stamped with the clock reading for its position. */
  ghost predicate AddsOnlyNew(rows: seq<CommitRow>, after: seq<CommitRow>, repo: string, commits: seq<Commit>,
                              clock: int -> real)
  {
    forall i :: |rows| <= i < |after| ==> NewCommitRow(rows, after[i], repo, commits, clock(i))
  }

  /** Every row the loop adds is a commit of that repository that the table
      did not hold before, stamped by the clock. */
  lemma {:induction false} LogCommitsAddsOnlyNew(rows: seq<CommitRow>, repo: string, commits: seq<Commit>, clock: int -> real)
    ensures AddsOnlyNew(rows, LogCommits(rows, repo, commits, clock), repo, commits, clock)
  {
    if commits != [] {
      var init := commits[..|commits| - 1];
      LogCommitsAddsOnlyNew(rows, repo, init, clock);
      LogCommitsStep(rows, repo, commits, clock);
      AddsOnlyNewSnoc(rows, LogCommits(rows, repo, init, clock), repo, commits, clock);
    }
  }

  lemma NewCommitRowWiden(rows: seq<CommitRow>, row: CommitRow, repo: string, init: seq<Commit>,
                          commits: seq<Commit>, ts: real)
    requires init <= commits && NewCommitRow(rows, row, repo, init, ts)
    ensures NewCommitRow(rows, row, repo, commits, ts)
  {
    var j :| 0 <= j < |init| && !Known(rows, init[j].hash, repo) && row == RowFor(repo, init[j], ts);
    assert commits[j] == init[j];
  }

  lemma AddsOnlyNewSnoc(rows: seq<CommitRow>, before: seq<CommitRow>, repo: string, commits: seq<Commit>,
                        clock: int -> real)
    requires commits != [] && rows <= before
    requires AddsOnlyNew(rows, before, repo, commits[..|commits| - 1], clock)
    ensures AddsOnlyNew(rows, before, repo, commits, clock)
    ensures var c := commits[|commits| - 1];
            !Known(before, c.hash, repo) ==>
              AddsOnlyNew(rows, before + [RowFor(repo, c, clock(|before|))], repo, commits, clock)
  {
    var n := |commits| - 1;
    AddsOnlyNewWiden(rows, before, repo, commits[..n], commits, clock);
    if !Known(before, commits[n].hash, repo) {
      UnknownInShorter(rows, before, commits[n].hash, repo);
      AddsOnlyNewAppend(rows, before, repo, commits, n, clock);
    }
  }

  lemma AddsOnlyNewWiden(rows: seq<CommitRow>, before: seq<CommitRow>, repo: string, init: seq<Commit>,
                         commits: seq<Commit>, clock: int -> real)
    requires init <= commits && AddsOnlyNew(rows, before, repo, init, clock)
    ensures AddsOnlyNew(rows, before, repo, commits, clock)
  {
    forall i | |rows| <= i < |before| ensures NewCommitRow(rows, before[i], repo, commits, clock(i)) {
      NewCommitRowWiden(rows, before[i], repo, init, commits, clock(i));
    }
  }

  lemma AddsOnlyNewAppend(rows: seq<CommitRow>, before: seq<CommitRow>, repo: string, commits: seq<Commit>,
                          j: int, clock: int -> real)
    requires 0 <= j < |commits| && !Known(rows, commits[j].hash, repo)
    requires AddsOnlyNew(rows, before, repo, commits, clock)
    ensures AddsOnlyNew(rows, before + [RowFor(repo, commits[j], clock(|before|))], repo, commits, clock)
  {
    var row := RowFor(repo, commits[j], clock(|before|));
    var after := before + [row];
    forall i | |rows| <= i < |after| ensures NewCommitRow(rows, after[i], repo, commits, clock(i)) {
      if i < |before| {
        assert after[i] == before[i];
      } else {
        assert i == |before| && after[i] == row;
        NewCommitRowAt(rows, row, repo, commits, j, clock(i));
      }
    }
  }

  lemma NewCommitRowAt(rows: seq<CommitRow>, row: CommitRow, repo: string, commits: seq<Commit>, j: int, ts: real)
    requires 0 <= j < |commits| && !Known(rows, commits[j].hash, repo) && row == RowFor(repo, commits[j], ts)
    ensures NewCommitRow(rows, row, repo, commits, ts)
  {
  }

  lemma LogCommitsStep(rows: seq<CommitRow>, repo: string, commits: seq<Commit>, clock: int -> real)
    requires commits != []
    ensures var before := LogCommits(rows, repo, commits[..|commits| - 1], clock);
            var c := commits[|commits| - 1];
            LogCommits(rows, repo, commits, clock)
              == if Known(before, c.hash, repo) then before else before + [RowFor(repo, c, clock(|before|))]
  {
  }

  lemma UnknownInShorter(a: seq<CommitRow>, b: seq<CommitRow>, hash: string, repo: string)
    requires a <= b && !Known(b, hash, repo)
    ensures !Known(a, hash, repo)
  {
    forall i | 0 <= i < |a| ensures !(a[i].hash == hash && a[i].repo == repo) {
      assert b[i] == a[i];
    }
  }

  /** Commits already in the table are skipped: when the table holds every
      commit, the loop inserts nothing. */
  lemma {:induction false} LogCommitsSkipsKnown(rows: seq<CommitRow>, repo: string, commits: seq<Commit>, clock: int -> real)
    requires forall c :: c in commits ==> Known(rows, c.hash, repo)
    ensures LogCommits(rows, repo, commits, clock) == rows
  {
    if commits != [] {
      LogCommitsSkipsKnown(rows, repo, commits[..|commits| - 1], clock);
    }
  }

  /** Scanning an unchanged repository again inserts nothing. */
  lemma RescanInsertsNothing(rows: seq<CommitRow>, repo: string, commits: seq<Commit>, clock: int -> real, later: int -> real)
    ensures var once := LogCommits(rows, repo, commits, clock);
            LogCommits(once, repo, commits, later) == once
  {
    LogCommitsRecordsAll(rows, repo, commits, clock);
    LogCommitsSkipsKnown(LogCommits(rows, repo, commits, clock), repo, commits, later);
  }

  /** The commits a repository's `git log` yields (none when it fails). */
  function CommitsOf(log: Option<string>): seq<Commit> {
    if log.None? then [] else ParsedCommits(SplitLines(log.value))
  }

  // ---------------------------------------------------------------------------
  // `discover_git_repos` over an abstract directory tree

  /** A directory and its subdirectories, in the order the walk lists them. */
  datatype Dir = Dir(name: string, subdirs: seq<Dir>)

  /** The directory names the walk never descends into. */
  const PRUNED: set<string> := {".git", ".venv", "node_modules", "__pycache__", "dist"}

  predicate HasGit(d: Dir) {
    exists i :: 0 <= i < |d.subdirs| && d.subdirs[i].name == ".git"
  }

  /** `ntpath.join(a, b)` for a plain name `b`: a backslash is put between
      them unless the part of `a` after its drive is empty or already ends in
      a separator. */
  function PathJoin(a: string, b: string): string {
    if SplitDrive(a).1 != "" && !IsSep(a[|a| - 1]) then a + "\\" + b else a + b
  }

  function Flatten(ss: seq<seq<string>>): seq<string> {
    if ss == [] then [] else ss[0] + Flatten(ss[1..])
  }

  lemma {:induction false} InFlatten(ss: seq<seq<string>>, x: string)
    ensures x in Flatten(ss) <==> exists i :: 0 <= i < |ss| && x in ss[i]
  {
    if ss != [] {
      InFlatten(ss[1..], x);
      if exists i :: 0 <= i < |ss| && x in ss[i] {
        var i :| 0 <= i < |ss| && x in ss[i];
        if i > 0 {
          assert ss[1..][i - 1] == ss[i];
        }
      }
      if x in Flatten(ss[1..]) {
        var i :| 0 <= i < |ss| - 1 && x in ss[1..][i];
        assert ss[i + 1] == ss[1..][i];
      }
    }
  }

  /** The repositories the walk from `path` records: the directory itself
      when it has a `.git` child, then those found under each child that is
      not pruned, in walk order. */
  function Discover(path: string, d: Dir): (r: seq<string>)
    ensures HasGit(d) ==> |r| > 0 && r[0] == path
    decreases d
  {
    (if HasGit(d) then [path] else [])
    + Flatten(seq(|d.subdirs|, i requires 0 <= i < |d.subdirs| =>
        if d.subdirs[i].name in PRUNED then [] else Discover(PathJoin(path, d.subdirs[i].name), d.subdirs[i])))
  }

  /** A walk from `d` through children that are not pruned. */
  ghost predicate Route(d: Dir, route: seq<nat>)
    decreases |route|
  {
    route == [] ||
    (route[0] < |d.subdirs| && d.subdirs[route[0]].name !in PRUNED && Route(d.subdirs[route[0]], route[1..]))
  }

  /** The directory a route ends in. */
  ghost function At(d: Dir, route: seq<nat>): Dir
    requires Route(d, route)
    decreases |route|
  {
    if route == [] then d else At(d.subdirs[route[0]], route[1..])
  }

  /** The path the walk gives the directory a route ends in. */
  ghost function PathAlong(path: string, d: Dir, route: seq<nat>): string
    requires Route(d, route)
    decreases |route|
  {
    if route == [] then path
    else PathAlong(PathJoin(path, d.subdirs[route[0]].name), d.subdirs[route[0]], route[1..])
  }

  /** Everything recorded is a directory with a `.git` child reached without
      entering a pruned directory. */
  lemma {:induction false} DiscoverSound(path: string, d: Dir, p: string)
    requires p in Discover(path, d)
    ensures exists route :: Route(d, route) && HasGit(At(d, route)) && p == PathAlong(path, d, route)
    decreases d
  {
    if HasGit(d) && p == path {
      assert Route(d, []) && At(d, []) == d && PathAlong(path, d, []) == path;
    } else {
      var ss := seq(|d.subdirs|, i requires 0 <= i < |d.subdirs| =>
        if d.subdirs[i].name in PRUNED then [] else Discover(PathJoin(path, d.subdirs[i].name), d.subdirs[i]));
      assert Discover(path, d) == (if HasGit(d) then [path] else []) + Flatten(ss);
      assert p in Flatten(ss);
      InFlatten(ss, p);
      var i :| 0 <= i < |ss| && p in ss[i];
      var child := d.subdirs[i];
      assert child.name !in PRUNED;
      DiscoverSound(PathJoin(path, child.name), child, p);
      var route :| Route(child, route) && HasGit(At(child, route)) && p == PathAlong(PathJoin(path, child.name), child, route);
      var full := [i] + route;
      assert full[1..] == route;
      assert Route(d, full) && At(d, full) == At(child, route);
      assert PathAlong(path, d, full) == p;
    }
  }

  /** Every directory with a `.git` child reached without entering a pruned
      directory is recorded, nested repositories included. */
  lemma {:induction false} DiscoverComplete(path: string, d: Dir, route: seq<nat>)
    requires Route(d, route) && HasGit(At(d, route))
    ensures PathAlong(path, d, route) in Discover(path, d)
    decreases |route|
  {
    if route != [] {
      var i := route[0];
      var child := d.subdirs[i];
      DiscoverComplete(PathJoin(path, child.name), child, route[1..]);
      var ss := seq(|d.subdirs|, j requires 0 <= j < |d.subdirs| =>
        if d.subdirs[j].name in PRUNED then [] else Discover(PathJoin(path, d.subdirs[j].name), d.subdirs[j]));
      assert ss[i] == Discover(PathJoin(path, child.name), child);
      InFlatten(ss, PathAlong(path, d, route));
      assert Discover(path, d) == (if HasGit(d) then [path] else []) + Flatten(ss);
    }
  }

  /** `discover_git_repos(start)`: `trees(start)` is the directory tree at
      `start`, or None when there is no directory there and the walk yields
      nothing. */
  function DiscoverGitRepos(start: string, trees: string -> Option<Dir>): seq<string> {
    if trees(start).None? then [] else Discover(start, trees(start).value)
  }

  /** The union of `f(b)` over the base paths `b`. */
  function UnionOver(bases: seq<string>, f: string -> set<string>): set<string> {
    if bases == [] then {} else UnionOver(bases[..|bases| - 1], f) + f(bases[|bases| - 1])
  }

  lemma {:induction false} InUnionOver(bases: seq<string>, f: string -> set<string>, r: string)
    ensures r in UnionOver(bases, f) <==> exists k :: 0 <= k < |bases| && r in f(bases[k])
  {
    if bases != [] {
      var n := |bases| - 1;
      var init := bases[..n];
      InUnionOver(init, f, r);
      if r in UnionOver(init, f) {
        var k :| 0 <= k < n && r in f(init[k]);
        assert bases[k] == init[k];
      }
      if exists k :: 0 <= k < |bases| && r in f(bases[k]) {
        var k :| 0 <= k < |bases| && r in f(bases[k]);
        if k < n {
          assert init[k] == bases[k];
        }
      }
    }
  }

  /** The repositories discovered under each of a list of base paths. */
  function DiscoveredUnder(bases: seq<string>, trees: string -> Option<Dir>): set<string> {
    UnionOver(bases, b => set p | p in DiscoverGitRepos(b, trees))
  }

  /** The repositories `scan_and_log` visits: `GIT_WATCH_PATHS`, plus, with
      auto-discovery on, every repository found under `WATCH_PATHS`. */
  function ReposToScan(gitWatchSetting: string, watchSetting: string, autoSetting: Option<string>,
                       trees: string -> Option<Dir>): (r: set<string>)
    ensures forall p :: p in Watcher.ParsePathList(gitWatchSetting) ==> p in r
  {
    (set p | p in Watcher.ParsePathList(gitWatchSetting))
    + (if AutoDiscover(autoSetting) then DiscoveredUnder(Watcher.ParsePathList(watchSetting), trees) else {})
  }

  /** A repository is scanned iff it is listed in `GIT_WATCH_PATHS`, or
      auto-discovery is on and a walk from some `WATCH_PATHS` entry records
      it. */
  lemma ReposToScanIff(gitWatchSetting: string, watchSetting: string, autoSetting: Option<string>,
                       trees: string -> Option<Dir>, r: string)
    ensures r in ReposToScan(gitWatchSetting, watchSetting, autoSetting, trees) <==>
              (r in Watcher.ParsePathList(gitWatchSetting)
               || (AutoDiscover(autoSetting) &&
                   var bases := Watcher.ParsePathList(watchSetting);
                   exists k :: 0 <= k < |bases| && r in DiscoverGitRepos(bases[k], trees)))
  {
    var bases := Watcher.ParsePathList(watchSetting);
    var f := b => set p | p in DiscoverGitRepos(b, trees);
    InUnionOver(bases, f, r);
    assert forall k :: 0 <= k < |bases| ==> (r in f(bases[k]) <==> r in DiscoverGitRepos(bases[k], trees));
  }

  class CommitTable {
    var rows: seq<CommitRow>

    ghost predicate Valid()
      reads this
    {
      UniquePairs(rows)
    }

    constructor ()
      ensures Valid() && rows == []
    {
      rows := [];
    }

    /** `SELECT 1 FROM git_commits WHERE commit_hash=? AND repo=?`. */
    method HasCommit(hash: string, repo: string) returns (found: bool)
      ensures found == Known(rows, hash, repo)
    {
      var i := 0;
      while i < |rows|
        invariant 0 <= i <= |rows|
        invariant forall k :: 0 <= k < i ==> !(rows[k].hash == hash && rows[k].repo == repo)
      {
        if rows[i].hash == hash && rows[i].repo == repo {
          return true;
        }
        i := i + 1;
      }
      return false;
    }

    /** The insert loop of `scan_and_log` for one repository. */
    method LogRepo(repo: string, commits: seq<Commit>, clock: int -> real)
      requires Valid()
      modifies this
      ensures Valid()
      ensures rows == LogCommits(old(rows), repo, commits, clock)
    {
      var i := 0;
      while i < |commits|
        invariant 0 <= i <= |commits|
        invariant rows == LogCommits(old(rows), repo, commits[..i], clock)
        invariant Valid()
      {
        assert commits[..i + 1][..i] == commits[..i];
        var found := HasCommit(commits[i].hash, repo);
        if !found {
          rows := rows + [RowFor(repo, commits[i], clock(|rows|))];
        }
        LogCommitsKeepsPairsUnique(old(rows), repo, commits[..i + 1], clock);
        i := i + 1;
      }
      assert commits[..i] == commits;
    }

    /** `scan_and_log(conn)`: `gitLog(repo)` is the repository's `git log`
        output, or None when the command fails. */
    method ScanAndLog(gitWatchSetting: string, watchSetting: string, autoSetting: Option<string>,
                      trees: string -> Option<Dir>, gitLog: string -> Option<string>, clock: int -> real)
      requires Valid()
      modifies this
      ensures Valid()
      ensures var repos := ReposToScan(gitWatchSetting, watchSetting, autoSetting, trees);
              && AllLogged(rows, repos, gitLog)
              && AddedFrom(old(rows), rows, repos, gitLog, clock)
    {
      var repos := ReposToScan(gitWatchSetting, watchSetting, autoSetting, trees);
      LogRepos(repos, gitLog, clock);
    }

    /** The loop `for repo in repos`: every repository is visited once, in
        an unspecified order. */
    method LogRepos(repos: set<string>, gitLog: string -> Option<string>, clock: int -> real)
      requires Valid()
      modifies this
      ensures Valid()
      ensures AllLogged(rows, repos, gitLog)
      ensures AddedFrom(old(rows), rows, repos, gitLog, clock)
    {
      var remaining := repos;
      while remaining != {}
        invariant remaining <= repos
        invariant Valid()
        invariant AllLogged(rows, repos - remaining, gitLog)
        invariant AddedFrom(old(rows), rows, repos - remaining, gitLog, clock)
        decreases remaining
      {
        var repo :| repo in remaining;
        ghost var done := repos - remaining;
        var commits := GetCommitHistory(gitLog(repo));
        ghost var before := rows;
        LogRepo(repo, commits, clock);
        ScanStep(old(rows), before, done, repo, gitLog, clock);
        remaining := remaining - {repo};
        assert repos - remaining == done + {repo};
      }
    }
  }

  /** Every commit of every repository in `repos` is in the table. */
  ghost predicate AllLogged(rows: seq<CommitRow>, repos: set<string>, gitLog: string -> Option<string>) {
    forall repo, c :: repo in repos && c in CommitsOf(gitLog(repo)) ==> Known(rows, c.hash, repo)
  }

  /** The table extends `start`, and every row added since is a commit of a
      repository in `repos`, stamped by the clock. */
  ghost predicate AddedFrom(start: seq<CommitRow>, rows: seq<CommitRow>, repos: set<string>,
                            gitLog: string -> Option<string>, clock: int -> real) {
    && start <= rows
    && forall i :: |start| <= i < |rows| ==>
         && rows[i].repo in repos
         && exists c :: c in CommitsOf(gitLog(rows[i].repo)) && rows[i] == RowFor(rows[i].repo, c, clock(i))
  }

  /** Logging one more repository keeps both facts, with that repository
      added to the ones done. */
  lemma ScanStep(start: seq<CommitRow>, before: seq<CommitRow>, done: set<string>, repo: string,
                 gitLog: string -> Option<string>, clock: int -> real)
    requires AllLogged(before, done, gitLog)
    requires AddedFrom(start, before, done, gitLog, clock)
    ensures var after := LogCommits(before, repo, CommitsOf(gitLog(repo)), clock);
            && AllLogged(after, done + {repo}, gitLog)
            && AddedFrom(start, after, done + {repo}, gitLog, clock)
  {
    var commits := CommitsOf(gitLog(repo));
    var after := LogCommits(before, repo, commits, clock);
    LogCommitsRecordsAll(before, repo, commits, clock);
    LogCommitsAddsOnlyNew(before, repo, commits, clock);
    forall r, c | r in done + {repo} && c in CommitsOf(gitLog(r)) ensures Known(after, c.hash, r) {
      if r in done {
        KnownInLonger(before, after, c.hash, r);
      }
    }
    forall i | |start| <= i < |after|
      ensures && after[i].repo in done + {repo}
              && exists c :: c in CommitsOf(gitLog(after[i].repo)) && after[i] == RowFor(after[i].repo, c, clock(i))
    {
      if i < |before| {
        assert after[i] == before[i];
      } else {
        assert NewCommitRow(before, after[i], repo, commits, clock(i));
        var j :| 0 <= j < |commits| && !Known(before, commits[j].hash, repo) && after[i] == RowFor(repo, commits[j], clock(i));
        assert commits[j] in CommitsOf(gitLog(after[i].repo));
      }
    }
  }

  // ---------------------------------------------------------------------------
  // `get_all_repositories_with_commits`

  /** `[{date}] {repo_name}: {message}`. */
  function CommitLine(r: CommitRow): string {
    "[" + r.date + "] " + r.repoName + ": " + r.message
  }

  /** The rows of one repository, in the order given. */
  function RowsOf(rows: seq<CommitRow>, repo: string): (r: seq<CommitRow>)
    ensures |r| <= |rows|
  {
    if rows == [] then []
    else
      var last := rows[|rows| - 1];
      RowsOf(rows[..|rows| - 1], repo) + (if last.repo == repo then [last] else [])
  }

  function CommitLines(rows: seq<CommitRow>): (r: seq<string>)
    ensures |r| == |rows|
    ensures forall i :: 0 <= i < |rows| ==> r[i] == CommitLine(rows[i])
  {
    seq(|rows|, i requires 0 <= i < |rows| => CommitLine(rows[i]))
  }

  /** The dictionary the grouping loop builds from the query's rows, in the
      order given. */
  function Grouped(rows: seq<CommitRow>): (r: map<string, seq<string>>)
    ensures forall k :: k in r ==> r[k] != []
    ensures rows != [] ==> rows[|rows| - 1].repo in r
  {
    if rows == [] then map[]
    else
      var g := Grouped(rows[..|rows| - 1]);
      var last := rows[|rows| - 1];
      g[last.repo := (if last.repo in g then g[last.repo] else []) + [CommitLine(last)]]
  }

  /** A row is among one repository's rows iff it is a row of the table
      with that repository. */
  lemma {:induction false} InRowsOf(rows: seq<CommitRow>, repo: string, x: CommitRow)
    ensures x in RowsOf(rows, repo) <==> x in rows && x.repo == repo
  {
    if rows != [] {
      var init := rows[..|rows| - 1];
      InRowsOf(init, repo, x);
      assert rows == init + [rows[|rows| - 1]];
    }
  }

  /** The keys are exactly the repositories with rows. */
  lemma {:induction false} GroupedKeys(rows: seq<CommitRow>)
    ensures forall k :: k in Grouped(rows) <==> exists i :: 0 <= i < |rows| && rows[i].repo == k
  {
    if rows != [] {
      var init := rows[..|rows| - 1];
      GroupedKeys(init);
      forall k ensures k in Grouped(rows) <==> exists i :: 0 <= i < |rows| && rows[i].repo == k {
        if exists i :: 0 <= i < |rows| && rows[i].repo == k {
          var i :| 0 <= i < |rows| && rows[i].repo == k;
          if i < |rows| - 1 {
            assert init[i].repo == k;
          }
        }
        if k in Grouped(init) {
          var i :| 0 <= i < |init| && init[i].repo == k;
          assert rows[i].repo == k;
        }
      }
    }
  }

  /** Each repository's list renders that repository's rows, in the
      query's order. */
  lemma {:induction false} GroupedLists(rows: seq<CommitRow>)
    ensures forall k :: k in Grouped(rows) ==> Grouped(rows)[k] == CommitLines(RowsOf(rows, k))
  {
    if rows != [] {
      var init := rows[..|rows| - 1];
      var last := rows[|rows| - 1];
      GroupedLists(init);
      GroupedKeys(init);
      forall k | k in Grouped(rows) ensures Grouped(rows)[k] == CommitLines(RowsOf(rows, k)) {
        if k == last.repo {
          if k !in Grouped(init) {
            RowsOfAbsent(init, k);
          }
          assert CommitLines(RowsOf(init, k) + [last]) == CommitLines(RowsOf(init, k)) + [CommitLine(last)];
        }
      }
    }
  }

  lemma {:induction false} RowsOfAbsent(rows: seq<CommitRow>, repo: string)
    requires forall i :: 0 <= i < |rows| ==> rows[i].repo != repo
    ensures RowsOf(rows, repo) == []
  {
    if rows != [] {
      RowsOfAbsent(rows[..|rows| - 1], repo);
    }
  }

  /** Each row is listed exactly once, under its own repository: the rows
      of one repository are, as a multiset, the table's rows with that
      repository. */
  lemma {:induction false} RowsOfCountsEachRowOnce(rows: seq<CommitRow>, repo: string, x: CommitRow)
    ensures multiset(RowsOf(rows, repo))[x] == if x.repo == repo then multiset(rows)[x] else 0
  {
    if rows != [] {
      var init := rows[..|rows| - 1];
      RowsOfCountsEachRowOnce(init, repo, x);
      assert rows == init + [rows[|rows| - 1]];
    }
  }

  /** `ORDER BY repo, timestamp DESC`: within one repository, newer rows
      come first. */
  ghost predicate NewestFirstWithinRepo(rows: seq<CommitRow>) {
    forall i, j :: 0 <= i < j < |rows| && rows[i].repo == rows[j].repo ==> rows[i].timestamp >= rows[j].timestamp
  }

  /** Over rows in the query's order, each repository's rows stay newest
      first. */
  lemma {:induction false} RowsOfNewestFirst(rows: seq<CommitRow>, repo: string)
    requires NewestFirstWithinRepo(rows)
    ensures var r := RowsOf(rows, repo);
            forall i, j :: 0 <= i < j < |r| ==> r[i].timestamp >= r[j].timestamp
  {
    if rows != [] {
      var n := |rows| - 1;
      var init := rows[..n];
      assert NewestFirstWithinRepo(init);
      RowsOfNewestFirst(init, repo);
      var r := RowsOf(rows, repo);
      var r0 := RowsOf(init, repo);
      if rows[n].repo == repo {
        forall i | 0 <= i < |r0| ensures r0[i].timestamp >= rows[n].timestamp {
          InRowsOf(init, repo, r0[i]);
          var m :| 0 <= m < n && init[m] == r0[i];
          assert rows[m] == r0[i];
        }
        assert r == r0 + [rows[n]];
        SnocKeepsNewestFirst(r0, rows[n]);
      } else {
        assert r == r0;
      }
    }
  }

  lemma SnocKeepsNewestFirst(s: seq<CommitRow>, x: CommitRow)
    requires forall i, j :: 0 <= i < j < |s| ==> s[i].timestamp >= s[j].timestamp
    requires forall i :: 0 <= i < |s| ==> s[i].timestamp >= x.timestamp
    ensures var r := s + [x];
            forall i, j :: 0 <= i < j < |r| ==> r[i].timestamp >= r[j].timestamp
  {
  }

  /** The grouping loop of `get_all_repositories_with_commits`; `ordered`
      is the query's result. */
  method GroupByRepo(ordered: seq<CommitRow>) returns (groups: map<string, seq<string>>)
    ensures groups == Grouped(ordered)
  {
    groups := map[];
    var i := 0;
    while i < |ordered|
      invariant 0 <= i <= |ordered|
      invariant groups == Grouped(ordered[..i])
    {
      var row := ordered[i];
      if row.repo !in groups {
        groups := groups[row.repo := []];
      }
      groups := groups[row.repo := groups[row.repo] + [CommitLine(row)]];
      assert ordered[..i + 1][..i] == ordered[..i];
      i := i + 1;
    }
    assert ordered[..i] == ordered;
  }
}
