/**
 * The ingestion-log side of the ordering pipeline (process_ytct_logs.py):
 * `extract_runs` scans the log for sessions and the post ids mentioned in
 * them, and `merge_posts` appends the ids not seen before to the persisted
 * first-seen order.
 *
 * A log is an optional sequence of lines; `None` is a log file that does not
 * exist. Lines may or may not carry their line terminator: no marker and no
 * id character is a line break, so the scan does not depend on it.
 */
module ProcessYtctLogs {
  import opened Wrappers

  const StartMarker: string := "[ytct] loaded cookies"
  const FinishMarker: string := "[ytct] finished"
  const MentionOpen: string := "[post:"

  // ---------------------------------------------------------------------
  // Recognising lines
  // ---------------------------------------------------------------------

  /** `w` occurs in `line` at position `i`. */
  ghost predicate OccursAt(line: string, i: int, w: string)
  {
    0 <= i && i + |w| <= |line| && line[i..i + |w|] == w
  }

  /** Python's `w in line`. */
  function Contains(line: string, w: string): bool
    decreases |line|
  {
    if |line| < |w| then false else line[..|w|] == w || Contains(line[1..], w)
  }

  lemma {:induction false} ContainsIsSubstring(line: string, w: string)
    ensures Contains(line, w) <==> exists i :: OccursAt(line, i, w)
    decreases |line|
  {
    if |line| >= |w| {
      if line[..|w|] == w {
        assert OccursAt(line, 0, w);
      } else {
        ContainsIsSubstring(line[1..], w);
        if Contains(line[1..], w) {
          var i :| OccursAt(line[1..], i, w);
          assert line[i + 1..i + 1 + |w|] == line[1..][i..i + |w|];
          assert OccursAt(line, i + 1, w);
        }
        if i :| OccursAt(line, i, w) {
          assert i != 0;
          assert line[1..][i - 1..i - 1 + |w|] == line[i..i + |w|];
          assert OccursAt(line[1..], i - 1, w);
        }
      }
    }
  }

  /** The characters of `[a-zA-Z0-9_-]`. */
  predicate Allowed(c: char)
  {
    ('a' <= c <= 'z') || ('A' <= c <= 'Z') || ('0' <= c <= '9') || c == '_' || c == '-'
  }

  /** The id `[post:<id>]` would capture: non-empty, of allowed characters. */
  ghost predicate ValidId(id: string)
  {
    |id| > 0 && forall j :: 0 <= j < |id| ==> Allowed(id[j])
  }

  /** The pattern `\[post:([a-zA-Z0-9_-]+)\]` matches at `i`, capturing `id`. */
  ghost predicate PatternAt(line: string, i: int, id: string)
  {
    ValidId(id) && OccursAt(line, i, MentionOpen + id + "]")
  }

  /** Length of the run of allowed characters of `line` from `i` on. */
  function AllowedRun(line: string, i: nat): (n: nat)
    requires i <= |line|
    ensures i + n <= |line|
    ensures forall j :: i <= j < i + n ==> Allowed(line[j])
    ensures i + n == |line| || !Allowed(line[i + n])
    decreases |line| - i
  {
    if i < |line| && Allowed(line[i]) then 1 + AllowedRun(line, i + 1) else 0
  }

  lemma {:induction false} AllowedRunExact(line: string, i: nat, n: nat)
    requires i + n < |line| && !Allowed(line[i + n])
    requires forall j :: i <= j < i + n ==> Allowed(line[j])
    ensures AllowedRun(line, i) == n
    decreases n
  {
    if n > 0 {
      AllowedRunExact(line, i + 1, n - 1);
    }
  }

  /**
   * The id captured by a match at `i`. Since `]` is not an allowed character,
   * the only run that can be followed by `]` is the longest one, so the
   * regex's backtracking has no other choice to try.
   */
  function MatchAt(line: string, i: nat): Option<string>
    requires i <= |line|
  {
    if i + |MentionOpen| <= |line| && line[i..i + |MentionOpen|] == MentionOpen then
      var start := i + |MentionOpen|;
      var n := AllowedRun(line, start);
      if n > 0 && start + n < |line| && line[start + n] == ']' then Some(line[start..start + n]) else None
    else
      None
  }

  /** How a string built as `a + b + c` splits back into its parts. */
  lemma SplitThree(u: string, a: string, b: string, c: string)
    requires u == a + b + c
    ensures |u| == |a| + |b| + |c|
    ensures u[..|a|] == a && u[|a|..|a| + |b|] == b && u[|a| + |b|..] == c
  {
  }

  lemma SliceOfSlice(s: string, a: int, b: int, c: int, d: int)
    requires 0 <= a <= b <= |s| && 0 <= c <= d <= b - a
    ensures s[a..b][c..d] == s[a + c..a + d]
  {
    assert forall k :: 0 <= k < d - c ==> s[a..b][c..d][k] == s[a + c..a + d][k];
  }

  lemma MatchAtSound(line: string, i: nat, id: string)
    requires i <= |line| && MatchAt(line, i) == Some(id)
    ensures PatternAt(line, i, id)
  {
    var m := |MentionOpen|;
    var n := AllowedRun(line, i + m);
    var w := line[i..i + m + n + 1];
    assert id == line[i + m..i + m + n];
    assert w == line[i..i + m] + line[i + m..i + m + n] + [line[i + m + n]];
  }

  lemma PatternAtComplete(line: string, i: nat, id: string)
    requires i <= |line| && PatternAt(line, i, id)
    ensures MatchAt(line, i) == Some(id)
  {
    var m, n := |MentionOpen|, |id|;
    var w := line[i..i + m + n + 1];
    SplitThree(w, MentionOpen, id, "]");
    SliceOfSlice(line, i, i + m + n + 1, 0, m);
    SliceOfSlice(line, i, i + m + n + 1, m, m + n);
    forall j | i + m <= j < i + m + n ensures Allowed(line[j]) {
      assert line[j] == w[j - i] == id[j - i - m];
    }
    assert line[i + m + n] == w[m + n];
    AllowedRunExact(line, i + m, n);
  }

  lemma MatchAtIsPattern(line: string, i: nat, id: string)
    requires i <= |line|
    ensures MatchAt(line, i) == Some(id) <==> PatternAt(line, i, id)
  {
    if MatchAt(line, i) == Some(id) {
      MatchAtSound(line, i, id);
    }
    if PatternAt(line, i, id) {
      PatternAtComplete(line, i, id);
    }
  }

  /** Python's `re.search` from position `i`: the match at the leftmost position that has one. */
  function SearchFrom(line: string, i: nat): Option<string>
    requires i <= |line|
    decreases |line| - i
  {
    if MatchAt(line, i).Some? then MatchAt(line, i)
    else if i == |line| then None
    else SearchFrom(line, i + 1)
  }

  /** `match.group(1)` of `post_pattern.search(line)`, if there is a match. */
  function FirstMention(line: string): Option<string>
  {
    SearchFrom(line, 0)
  }

  /** No match of the pattern starts in `[from, to)`. */
  ghost predicate NoPatternIn(line: string, from: int, to: int)
  {
    forall q, id' :: from <= q < to ==> !PatternAt(line, q, id')
  }

  lemma {:induction false} SearchFromIsLeftmost(line: string, i: nat, id: string)
    requires i <= |line|
    ensures SearchFrom(line, i) == Some(id) <==> exists p :: PatternAt(line, p, id) && i <= p && NoPatternIn(line, i, p)
    decreases |line| - i
  {
    MatchAtIsPattern(line, i, id);
    if MatchAt(line, i).Some? {
      MatchAtIsPattern(line, i, MatchAt(line, i).value);
      if SearchFrom(line, i) == Some(id) {
        assert PatternAt(line, i, id) && NoPatternIn(line, i, i);
      }
    } else {
      forall id' ensures !PatternAt(line, i, id') {
        MatchAtIsPattern(line, i, id');
      }
      if i < |line| {
        SearchFromIsLeftmost(line, i + 1, id);
        if p :| PatternAt(line, p, id) && i + 1 <= p && NoPatternIn(line, i + 1, p) {
          assert NoPatternIn(line, i, p);
        }
        if p :| PatternAt(line, p, id) && i <= p && NoPatternIn(line, i, p) {
          assert p != i;
          assert NoPatternIn(line, i + 1, p);
        }
      } else {
        if p :| PatternAt(line, p, id) && i <= p && NoPatternIn(line, i, p) {
          assert false;
        }
      }
    }
  }

  /** The search from `i` finds nothing exactly when the pattern matches at no position from `i` on. */
  lemma {:induction false} SearchFromNone(line: string, i: nat)
    requires i <= |line|
    ensures SearchFrom(line, i).None? <==> NoPatternIn(line, i, |line| + 1)
    decreases |line| - i
  {
    if MatchAt(line, i).Some? {
      MatchAtIsPattern(line, i, MatchAt(line, i).value);
    } else {
      forall id' ensures !PatternAt(line, i, id') {
        MatchAtIsPattern(line, i, id');
      }
      if i < |line| {
        SearchFromNone(line, i + 1);
      }
    }
  }

  /**
   * The id taken from a line is the one captured by the leftmost match of
   * `\[post:([a-zA-Z0-9_-]+)\]`; a line without a match gives none.
   */
  lemma FirstMentionIsLeftmostMatch(line: string, id: string)
    ensures FirstMention(line) == Some(id) <==>
              exists p :: PatternAt(line, p, id) && NoPatternIn(line, 0, p)
  {
    SearchFromIsLeftmost(line, 0, id);
  }

  /** How the scan treats a line, in the order of the checks: start, finish, mention. */
  datatype LineKind = StartLine | FinishLine | MentionLine(id: string) | OtherLine

  function Classify(line: string): LineKind
  {
    if Contains(line, StartMarker) then StartLine
    else if Contains(line, FinishMarker) then FinishLine
    else match FirstMention(line)
      case Some(id) => MentionLine(id)
      case None => OtherLine
  }

  /**
   * A start line is one containing the start marker, a finish line one
   * containing the finish marker and not the start marker. Any other line is
   * a mention of the id captured by the leftmost match of the pattern, or,
   * when the pattern matches nowhere, a line the scan ignores.
   */
  lemma ClassifyMeaning(line: string)
    ensures Classify(line) == StartLine <==> Contains(line, StartMarker)
    ensures Classify(line) == FinishLine <==> !Contains(line, StartMarker) && Contains(line, FinishMarker)
    ensures Classify(line).MentionLine? ==>
              exists p :: PatternAt(line, p, Classify(line).id) && NoPatternIn(line, 0, p)
    ensures Classify(line) == OtherLine <==>
              !Contains(line, StartMarker) && !Contains(line, FinishMarker) && NoPatternIn(line, 0, |line| + 1)
  {
    SearchFromNone(line, 0);
    if Classify(line).MentionLine? {
      FirstMentionIsLeftmostMatch(line, Classify(line).id);
    }
  }

  // ---------------------------------------------------------------------
  // extract_runs
  // ---------------------------------------------------------------------

  /** The scan's variables `inside_run`, `current_run` and `runs`. */
  datatype ScanState = ScanState(inside: bool, current: seq<string>, runs: seq<seq<string>>)

  /** `if current_run: runs.append(current_run)` */
  function Emit(runs: seq<seq<string>>, current: seq<string>): seq<seq<string>>
  {
    if current != [] then runs + [current] else runs
  }

  /**
   * One line of the scan. A finish line emits the buffer but does not clear
   * it (process_ytct_logs.py:33-36).
   */
  function Step(st: ScanState, line: string): ScanState
  {
    match Classify(line)
    case StartLine => ScanState(true, [], Emit(st.runs, st.current))
    case FinishLine => ScanState(false, st.current, Emit(st.runs, st.current))
    case MentionLine(id) =>
      if st.inside && id !in st.current then st.(current := st.current + [id]) else st
    case OtherLine => st
  }

  /**
   * What one line does to the scan. A session opens at a start line and
   * closes at a finish line. Runs are extended exactly at a marker line with
   * a non-empty buffer, by that buffer. Only a start line clears the buffer:
   * a finish line emits it and keeps it. A mention of an id not yet in the
   * buffer, inside a session, appends it; any other mention and any other
   * line change nothing. The buffer never holds an id twice.
   */
  lemma StepShape(st: ScanState, line: string)
    ensures Step(st, line).inside <==>
              Classify(line) == StartLine || (st.inside && Classify(line) != FinishLine)
    ensures Step(st, line).runs == st.runs ||
            (Step(st, line).runs == st.runs + [st.current] && st.current != [] &&
             Classify(line) in {StartLine, FinishLine})
    ensures Classify(line) == StartLine ==> Step(st, line).current == []
    ensures Classify(line) != StartLine ==> st.current <= Step(st, line).current
    ensures Classify(line) != StartLine ==>
              forall x :: x in Step(st, line).current ==>
                x in st.current || (st.inside && Classify(line) == MentionLine(x))
    ensures NoDup(st.current) ==> NoDup(Step(st, line).current)
    ensures Classify(line) == StartLine || Classify(line) == FinishLine ==>
              Step(st, line).runs == Emit(st.runs, st.current)
    ensures forall x :: st.inside && Classify(line) == MentionLine(x) && x !in st.current ==>
              Step(st, line).current == st.current + [x]
    ensures forall x :: Classify(line) == MentionLine(x) && (!st.inside || x in st.current) ==>
              Step(st, line) == st
    ensures Classify(line) == OtherLine ==> Step(st, line) == st
  {
  }

  /** The state after scanning `lines` from the initial one (outside, empty buffer, no runs). */
  function Scan(lines: seq<string>): ScanState
    decreases |lines|
  {
    if lines == [] then ScanState(false, [], [])
    else Step(Scan(lines[..|lines| - 1]), lines[|lines| - 1])
  }

  /** The runs `extract_runs` returns for the lines of an existing log. */
  function Runs(lines: seq<string>): seq<seq<string>>
  {
    Emit(Scan(lines).runs, Scan(lines).current)
  }

  /** Scans the log line by line, as `extract_runs` does. */
  method ExtractRuns(log: Option<seq<string>>) returns (runs: seq<seq<string>>)
    ensures log.None? ==> runs == []
    ensures log.Some? ==> runs == Runs(log.value)
  {
    runs := [];
    var currentRun: seq<string> := [];
    var insideRun := false;
    if log.Some? {
      var lines := log.value;
      var i := 0;
      while i < |lines|
        invariant 0 <= i <= |lines|
        invariant ScanState(insideRun, currentRun, runs) == Scan(lines[..i])
      {
        var line := lines[i];
        if Contains(line, StartMarker) {
          if currentRun != [] {
            runs := runs + [currentRun];
          }
          currentRun := [];
          insideRun := true;
        } else if Contains(line, FinishMarker) {
          if currentRun != [] {
            runs := runs + [currentRun];
          }
          insideRun := false;
        } else if insideRun {
          var m := FirstMention(line);
          if m.Some? {
            var postId := m.value;
            if postId !in currentRun {
              currentRun := currentRun + [postId];
            }
          }
        }
        assert lines[..i + 1][..i] == lines[..i];
        i := i + 1;
      }
      assert lines[..|lines|] == lines;
    }
    if currentRun != [] {
      runs := runs + [currentRun];
    }
  }

  // ---------------------------------------------------------------------
  // Properties of the scan
  // ---------------------------------------------------------------------

  ghost predicate NoDup(s: seq<string>)
  {
    forall i, j :: 0 <= i < j < |s| ==> s[i] != s[j]
  }

  lemma {:induction false} ScanRunsDistinct(lines: seq<string>)
    ensures NoDup(Scan(lines).current)
    ensures forall r :: r in Scan(lines).runs ==> r != [] && NoDup(r)
    decreases |lines|
  {
    if lines != [] {
      ScanRunsDistinct(lines[..|lines| - 1]);
    }
  }

  /** Every run is non-empty and holds no id twice. */
  lemma RunsNonEmptyDistinct(lines: seq<string>)
    ensures forall r :: r in Runs(lines) ==> r != [] && NoDup(r)
  {
    ScanRunsDistinct(lines);
  }

  /** After `lines`, a session is open: some start line has no finish line after it. */
  ghost predicate InSession(lines: seq<string>)
  {
    exists s :: 0 <= s < |lines| && Classify(lines[s]) == StartLine &&
      forall j :: s < j < |lines| ==> Classify(lines[j]) != FinishLine
  }

  /** A line that is neither a start nor a finish line leaves the session state as it was. */
  lemma InSessionOther(lines: seq<string>)
    requires lines != []
    requires Classify(lines[|lines| - 1]) != StartLine && Classify(lines[|lines| - 1]) != FinishLine
    ensures InSession(lines) <==> InSession(lines[..|lines| - 1])
  {
    var n := |lines| - 1;
    var init := lines[..n];
    assert forall j :: 0 <= j < n ==> lines[j] == init[j];
    if InSession(init) {
      var s :| 0 <= s < |init| && Classify(init[s]) == StartLine &&
        forall j :: s < j < |init| ==> Classify(init[j]) != FinishLine;
      assert Classify(lines[s]) == StartLine;
      assert InSession(lines);
    }
    if InSession(lines) {
      var s :| 0 <= s < |lines| && Classify(lines[s]) == StartLine &&
        forall j :: s < j < |lines| ==> Classify(lines[j]) != FinishLine;
      assert s != n;
      assert InSession(init);
    }
  }

  /** The `inside_run` flag is exactly "a session is open". */
  lemma {:induction false} ScanInsideIsInSession(lines: seq<string>)
    ensures Scan(lines).inside <==> InSession(lines)
    decreases |lines|
  {
    if lines != [] {
      var n := |lines| - 1;
      ScanInsideIsInSession(lines[..n]);
      var kind := Classify(lines[n]);
      if kind == StartLine {
        assert 0 <= n < |lines| && Classify(lines[n]) == StartLine;
      } else if kind == FinishLine {
        forall s | 0 <= s < |lines| && Classify(lines[s]) == StartLine
          ensures exists j :: s < j < |lines| && Classify(lines[j]) == FinishLine
        {
          if s < n {
            assert Classify(lines[n]) == FinishLine;
          }
        }
      } else {
        InSessionOther(lines);
      }
    }
  }

  /** Line `i` mentions `id` (and is no marker line) while a session is open. */
  ghost predicate RecordedAt(lines: seq<string>, i: int, id: string)
  {
    0 <= i < |lines| && Classify(lines[i]) == MentionLine(id) && InSession(lines[..i])
  }

  /** The ids of a sequence of runs, in order. */
  function Flatten(runs: seq<seq<string>>): (ids: seq<string>)
    decreases |runs|
  {
    if runs == [] then [] else Flatten(runs[..|runs| - 1]) + runs[|runs| - 1]
  }

  lemma {:induction false} FlattenMember(runs: seq<seq<string>>, x: string)
    ensures x in Flatten(runs) <==> exists j :: 0 <= j < |runs| && x in runs[j]
    decreases |runs|
  {
    if runs != [] {
      var init := runs[..|runs| - 1];
      FlattenMember(init, x);
      assert forall j :: 0 <= j < |init| ==> init[j] == runs[j];
    }
  }

  lemma {:induction false} FlattenAppend(a: seq<seq<string>>, b: seq<seq<string>>)
    ensures Flatten(a + b) == Flatten(a) + Flatten(b)
    decreases |b|
  {
    if b == [] {
      assert a + b == a;
    } else {
      var n := |b| - 1;
      assert (a + b)[..|a + b| - 1] == a + b[..n];
      FlattenAppend(a, b[..n]);
    }
  }

  lemma EmitFlatten(runs: seq<seq<string>>, current: seq<string>)
    ensures Flatten(Emit(runs, current)) == Flatten(runs) + current
  {
    if current != [] {
      assert (runs + [current])[..|runs|] == runs;
    } else {
      assert Flatten(runs) + current == Flatten(runs);
    }
  }

  /** An id that a step adds was mentioned on that line, inside a session. */
  lemma StepNewId(st: ScanState, line: string, id: string)
    requires id in Step(st, line).current || id in Flatten(Step(st, line).runs)
    requires id !in st.current && id !in Flatten(st.runs)
    ensures st.inside && Classify(line) == MentionLine(id)
  {
    EmitFlatten(st.runs, st.current);
    match Classify(line)
    case StartLine =>
    case FinishLine =>
    case MentionLine(m) =>
    case OtherLine =>
  }

  lemma RecordedAtExtend(lines: seq<string>, i: int, id: string)
    requires lines != [] && RecordedAt(lines[..|lines| - 1], i, id)
    ensures RecordedAt(lines, i, id)
  {
    assert lines[..i] == lines[..|lines| - 1][..i];
  }

  lemma {:induction false} ScanRecordedSound(lines: seq<string>)
    ensures forall id :: id in Scan(lines).current || id in Flatten(Scan(lines).runs) ==>
              exists i :: RecordedAt(lines, i, id)
    decreases |lines|
  {
    if lines != [] {
      var n := |lines| - 1;
      var init := lines[..n];
      ScanRecordedSound(init);
      ScanInsideIsInSession(init);
      var st := Scan(init);
      forall id | id in Scan(lines).current || id in Flatten(Scan(lines).runs)
        ensures exists i :: RecordedAt(lines, i, id)
      {
        if id in st.current || id in Flatten(st.runs) {
          var i :| RecordedAt(init, i, id);
          RecordedAtExtend(lines, i, id);
        } else {
          StepNewId(st, lines[n], id);
          assert RecordedAt(lines, n, id);
        }
      }
    }
  }

  /**
   * Every id of every run was mentioned on a non-marker line while a session
   * was open: mentions before the first start line, or after a finish line
   * and before the next start line, are dropped.
   */
  lemma RunsOnlyFromSessions(lines: seq<string>, id: string)
    requires id in Flatten(Runs(lines))
    ensures exists i :: RecordedAt(lines, i, id)
  {
    ScanRecordedSound(lines);
    EmitFlatten(Scan(lines).runs, Scan(lines).current);
  }

  /** A step never loses an id from the buffer or the runs. */
  lemma StepKeepsIds(st: ScanState, line: string, x: string)
    requires x in st.current || x in Flatten(st.runs)
    ensures x in Step(st, line).current || x in Flatten(Step(st, line).runs)
  {
    EmitFlatten(st.runs, st.current);
  }

  lemma {:induction false} ScanRecordedComplete(lines: seq<string>, i: int, id: string)
    requires RecordedAt(lines, i, id)
    ensures id in Scan(lines).current || id in Flatten(Scan(lines).runs)
    decreases |lines|
  {
    var n := |lines| - 1;
    var init := lines[..n];
    assert lines[n] == lines[|lines| - 1];
    if i < n {
      assert init[..i] == lines[..i] && init[i] == lines[i];
      ScanRecordedComplete(init, i, id);
      StepKeepsIds(Scan(init), lines[n], id);
    } else {
      assert init == lines[..i];
      ScanInsideIsInSession(init);
    }
  }

  /** Every id mentioned on a non-marker line while a session is open ends up in some run. */
  lemma RunsCoverSessions(lines: seq<string>, i: int, id: string)
    requires RecordedAt(lines, i, id)
    ensures id in Flatten(Runs(lines))
  {
    ScanRecordedComplete(lines, i, id);
    EmitFlatten(Scan(lines).runs, Scan(lines).current);
  }

  // ---------------------------------------------------------------------
  // merge_posts
  // ---------------------------------------------------------------------

  /** `if post not in seen_posts: merged_posts.append(post)` */
  function AddNew(acc: seq<string>, x: string): seq<string>
  {
    if x in acc then acc else acc + [x]
  }

  /** `acc` followed by the ids of `xs` not seen before, in first-seen order. */
  function AppendNew(acc: seq<string>, xs: seq<string>): (r: seq<string>)
    ensures acc <= r
    decreases |xs|
  {
    if xs == [] then acc else AddNew(AppendNew(acc, xs[..|xs| - 1]), xs[|xs| - 1])
  }

  /** What `merge_posts(existing_posts, new_runs)` returns. */
  function Merge(existing: seq<string>, newRuns: seq<seq<string>>): seq<string>
  {
    AppendNew(existing, Flatten(newRuns))
  }

  /** Merges as `merge_posts` does: a copy of the existing order, a seen-set, two nested loops. */
  method MergePosts(existingPosts: seq<string>, newRuns: seq<seq<string>>) returns (mergedPosts: seq<string>)
    ensures mergedPosts == Merge(existingPosts, newRuns)
  {
    var seenPosts: set<string> := set x | x in existingPosts;
    mergedPosts := existingPosts;
    ghost var processed: seq<string> := [];
    var r := 0;
    while r < |newRuns|
      invariant 0 <= r <= |newRuns|
      invariant processed == Flatten(newRuns[..r])
      invariant mergedPosts == AppendNew(existingPosts, processed)
      invariant seenPosts == set x | x in mergedPosts
    {
      var run := newRuns[r];
      ghost var done := processed;
      var k := 0;
      assert run[..0] == [];
      while k < |run|
        invariant 0 <= k <= |run|
        invariant processed == done + run[..k]
        invariant mergedPosts == AppendNew(existingPosts, processed)
        invariant seenPosts == set x | x in mergedPosts
      {
        var post := run[k];
        AppendNewSnoc(existingPosts, processed, post);
        if post !in seenPosts {
          SetOfSnoc(mergedPosts, post);
          mergedPosts := mergedPosts + [post];
          seenPosts := seenPosts + {post};
        }
        assert run[..k + 1] == run[..k] + [post];
        processed := processed + [post];
        k := k + 1;
      }
      assert newRuns[..r + 1][..r] == newRuns[..r];
      assert run[..|run|] == run;
      r := r + 1;
    }
    assert newRuns[..|newRuns|] == newRuns;
  }

  lemma SetOfSnoc(s: seq<string>, x: string)
    ensures (set y | y in s + [x]) == (set y | y in s) + {x}
  {
  }

  lemma AppendNewSnoc(acc: seq<string>, xs: seq<string>, x: string)
    ensures AppendNew(acc, xs + [x]) == AddNew(AppendNew(acc, xs), x)
  {
    assert (xs + [x])[..|xs|] == xs;
  }

  // ---------------------------------------------------------------------
  // Properties of the merge
  // ---------------------------------------------------------------------

  lemma {:induction false} AppendNewMember(acc: seq<string>, xs: seq<string>, x: string)
    ensures x in AppendNew(acc, xs) <==> x in acc || x in xs
    decreases |xs|
  {
    if xs != [] {
      var init := xs[..|xs| - 1];
      AppendNewMember(acc, init, x);
      assert xs == init + [xs[|xs| - 1]];
    }
  }

  /** The appended ids are new and distinct. */
  lemma {:induction false} AppendNewShape(acc: seq<string>, xs: seq<string>)
    ensures NoDup(AppendNew(acc, xs)[|acc|..])
    ensures forall x :: x in AppendNew(acc, xs)[|acc|..] ==> x !in acc
    decreases |xs|
  {
    if xs != [] {
      var init := xs[..|xs| - 1];
      AppendNewShape(acc, init);
      var prev := AppendNew(acc, init);
      var x := xs[|xs| - 1];
      if x !in prev {
        assert (prev + [x])[|acc|..] == prev[|acc|..] + [x];
        assert x !in acc;
      }
    }
  }

  lemma {:induction false} AppendNewConcat(acc: seq<string>, xs: seq<string>, ys: seq<string>)
    ensures AppendNew(acc, xs + ys) == AppendNew(AppendNew(acc, xs), ys)
    decreases |ys|
  {
    if ys == [] {
      assert xs + ys == xs;
    } else {
      var n := |ys| - 1;
      assert (xs + ys)[..|xs + ys| - 1] == xs + ys[..n];
      AppendNewConcat(acc, xs, ys[..n]);
    }
  }

  lemma {:induction false} AppendNewCovered(acc: seq<string>, ys: seq<string>)
    requires forall y :: y in ys ==> y in acc
    ensures AppendNew(acc, ys) == acc
    decreases |ys|
  {
    if ys != [] {
      AppendNewCovered(acc, ys[..|ys| - 1]);
    }
  }

  /** Each id in one of the runs shows up in the result, and nothing else is added. */
  lemma MergeMembers(existing: seq<string>, newRuns: seq<seq<string>>, x: string)
    ensures x in Merge(existing, newRuns) <==>
              x in existing || exists j :: 0 <= j < |newRuns| && x in newRuns[j]
  {
    AppendNewMember(existing, Flatten(newRuns), x);
    FlattenMember(newRuns, x);
  }

  /**
   * The existing order is untouched and a prefix of the result; each
   * appended id is in neither the existing order nor earlier in the appended part.
   */
  lemma MergeAppendsOnly(existing: seq<string>, newRuns: seq<seq<string>>)
    ensures existing <= Merge(existing, newRuns)
    ensures NoDup(Merge(existing, newRuns)[|existing|..])
    ensures forall x :: x in Merge(existing, newRuns)[|existing|..] ==> x !in existing
  {
    AppendNewShape(existing, Flatten(newRuns));
  }

  /** A duplicate-free order stays duplicate-free. */
  lemma MergeKeepsDistinct(existing: seq<string>, newRuns: seq<seq<string>>)
    requires NoDup(existing)
    ensures NoDup(Merge(existing, newRuns))
  {
    var m := Merge(existing, newRuns);
    MergeAppendsOnly(existing, newRuns);
    var e := |existing|;
    forall i, j | 0 <= i < j < |m| ensures m[i] != m[j] {
      if j >= e {
        assert m[j] in m[e..];
        if i < e {
          assert m[i] in existing;
        } else {
          assert m[e..][i - e] == m[i] && m[e..][j - e] == m[j];
        }
      }
    }
  }

  /** Index of the first occurrence of `x` in `xs`. */
  function FirstIndex(xs: seq<string>, x: string): (k: nat)
    requires x in xs
    ensures k < |xs| && xs[k] == x && x !in xs[..k]
  {
    if xs[0] == x then 0 else 1 + FirstIndex(xs[1..], x)
  }

  lemma {:induction false} FirstIndexExtend(xs: seq<string>, y: string, x: string)
    requires x in xs
    ensures FirstIndex(xs + [y], x) == FirstIndex(xs, x)
  {
    if xs[0] != x {
      assert (xs + [y])[1..] == xs[1..] + [y];
      FirstIndexExtend(xs[1..], y, x);
    }
  }

  /** The appended ids all come from `xs`. */
  lemma {:induction false} AppendNewFromInput(acc: seq<string>, xs: seq<string>)
    ensures forall x :: x in AppendNew(acc, xs)[|acc|..] ==> x in xs
    decreases |xs|
  {
    if xs != [] {
      var n := |xs| - 1;
      var init, x := xs[..n], xs[n];
      assert xs == init + [x];
      AppendNewFromInput(acc, init);
      var prev := AppendNew(acc, init);
      var m := AppendNew(acc, xs);
      forall y | y in m[|acc|..] ensures y in xs {
        if y != x || x in prev {
          assert prev[|acc|..] <= m[|acc|..];
          var p :| |acc| <= p < |m| && m[p] == y;
          if p < |prev| {
            assert prev[|acc|..][p - |acc|] == y;
          } else {
            assert false;
          }
        }
      }
    }
  }

  lemma {:induction false} AppendNewFirstSeenOrder(acc: seq<string>, xs: seq<string>)
    ensures forall i, j :: |acc| <= i < j < |AppendNew(acc, xs)| ==>
              AppendNew(acc, xs)[i] in xs && AppendNew(acc, xs)[j] in xs &&
              FirstIndex(xs, AppendNew(acc, xs)[i]) < FirstIndex(xs, AppendNew(acc, xs)[j])
    decreases |xs|
  {
    AppendNewFromInput(acc, xs);
    if xs != [] {
      var n := |xs| - 1;
      var init, x := xs[..n], xs[n];
      assert xs == init + [x];
      AppendNewFirstSeenOrder(acc, init);
      AppendNewFromInput(acc, init);
      var prev := AppendNew(acc, init);
      var m := AppendNew(acc, xs);
      forall i, j | |acc| <= i < j < |m|
        ensures m[i] in xs && m[j] in xs && FirstIndex(xs, m[i]) < FirstIndex(xs, m[j])
      {
        assert m[i] in m[|acc|..] && m[j] in m[|acc|..];
        if j < |prev| {
          assert m[i] == prev[i] && m[j] == prev[j];
          assert prev[i] in prev[|acc|..] && prev[j] in prev[|acc|..];
          FirstIndexExtend(init, x, m[i]);
          FirstIndexExtend(init, x, m[j]);
        } else {
          assert x !in prev && m == prev + [x] && j == |prev| && m[j] == x;
          assert m[i] == prev[i] && prev[i] in prev[|acc|..];
          FirstIndexExtend(init, x, m[i]);
          AppendNewMember(acc, init, x);
          assert x !in init;
          assert FirstIndex(xs, x) == n;
        }
      }
    }
  }

  /**
   * The appended ids come from the runs, in the order in which each was
   * first seen across the runs taken one after the other.
   */
  lemma MergeFirstSeenOrder(existing: seq<string>, newRuns: seq<seq<string>>)
    ensures forall i, j :: |existing| <= i < j < |Merge(existing, newRuns)| ==>
              Merge(existing, newRuns)[i] in Flatten(newRuns) &&
              Merge(existing, newRuns)[j] in Flatten(newRuns) &&
              FirstIndex(Flatten(newRuns), Merge(existing, newRuns)[i]) <
              FirstIndex(Flatten(newRuns), Merge(existing, newRuns)[j])
  {
    var xs := Flatten(newRuns);
    var m := AppendNew(existing, xs);
    AppendNewFirstSeenOrder(existing, xs);
    AppendNewFromInput(existing, xs);
    forall i, j | |existing| <= i < j < |m|
      ensures m[i] in xs && m[j] in xs && FirstIndex(xs, m[i]) < FirstIndex(xs, m[j])
    {
      assert m[i] in m[|existing|..] && m[j] in m[|existing|..];
    }
    assert m == Merge(existing, newRuns);
  }

  /** Merging the same runs a second time changes nothing. */
  lemma MergeIdempotent(existing: seq<string>, newRuns: seq<seq<string>>)
    ensures Merge(Merge(existing, newRuns), newRuns) == Merge(existing, newRuns)
  {
    var m := Merge(existing, newRuns);
    forall y | y in Flatten(newRuns) ensures y in m {
      AppendNewMember(existing, Flatten(newRuns), y);
    }
    AppendNewCovered(m, Flatten(newRuns));
  }

  /** Merging one batch of runs and then another is merging both at once. */
  lemma MergeSuccessive(existing: seq<string>, first: seq<seq<string>>, second: seq<seq<string>>)
    ensures Merge(Merge(existing, first), second) == Merge(existing, first + second)
  {
    FlattenAppend(first, second);
    AppendNewConcat(existing, Flatten(first), Flatten(second));
  }

  // ---------------------------------------------------------------------
  // The finish line that does not clear the buffer
  // ---------------------------------------------------------------------

  /** The scan with `current_run = []` added on finish lines. */
  function StepReset(st: ScanState, line: string): ScanState
  {
    match Classify(line)
    case FinishLine => ScanState(false, [], Emit(st.runs, st.current))
    case _ => Step(st, line)
  }

  function ScanReset(lines: seq<string>): ScanState
    decreases |lines|
  {
    if lines == [] then ScanState(false, [], [])
    else StepReset(ScanReset(lines[..|lines| - 1]), lines[|lines| - 1])
  }

  function RunsReset(lines: seq<string>): seq<seq<string>>
  {
    Emit(ScanReset(lines).runs, ScanReset(lines).current)
  }

  /** The first-seen order of the ids of `xs`. */
  function Dedup(xs: seq<string>): seq<string>
  {
    AppendNew([], xs)
  }

  lemma {:induction false} AppendNewDedup(acc: seq<string>, xs: seq<string>)
    ensures AppendNew(acc, xs) == AppendNew(acc, Dedup(xs))
    decreases |xs|
  {
    if xs != [] {
      var n := |xs| - 1;
      var init, x := xs[..n], xs[n];
      AppendNewDedup(acc, init);
      var d := Dedup(init);
      AppendNewMember([], init, x);
      if x in d {
        AppendNewMember(acc, d, x);
      } else {
        assert Dedup(xs) == d + [x];
        assert (d + [x])[..|d|] == d;
      }
    }
  }

  /** The two scans agree up to runs that repeat ids already emitted. */
  ghost predicate Related(a: ScanState, b: ScanState)
  {
    a.inside == b.inside &&
    Dedup(Flatten(a.runs)) == Dedup(Flatten(b.runs)) &&
    (a.current == b.current ||
     (b.current == [] && !a.inside && forall x :: x in a.current ==> x in Flatten(a.runs)))
  }

  lemma EmitRelated(a: ScanState, b: ScanState)
    requires Related(a, b)
    ensures Dedup(Flatten(Emit(a.runs, a.current))) == Dedup(Flatten(Emit(b.runs, b.current)))
  {
    EmitFlatten(a.runs, a.current);
    EmitFlatten(b.runs, b.current);
    AppendNewConcat([], Flatten(a.runs), a.current);
    AppendNewConcat([], Flatten(b.runs), b.current);
    if a.current != b.current {
      forall x | x in a.current ensures x in Dedup(Flatten(a.runs)) {
        AppendNewMember([], Flatten(a.runs), x);
      }
      AppendNewCovered(Dedup(Flatten(a.runs)), a.current);
      assert Flatten(b.runs) + b.current == Flatten(b.runs);
    }
  }

  lemma StepRelated(a: ScanState, b: ScanState, line: string)
    requires Related(a, b)
    ensures Related(Step(a, line), StepReset(b, line))
  {
    var a', b' := Step(a, line), StepReset(b, line);
    match Classify(line)
    case StartLine =>
      EmitRelated(a, b);
    case FinishLine =>
      EmitRelated(a, b);
      EmitFlatten(a.runs, a.current);
      forall x | x in a.current ensures x in Flatten(a'.runs) { }
    case MentionLine(id) =>
    case OtherLine =>
  }

  lemma {:induction false} ScanRelated(lines: seq<string>)
    ensures Related(Scan(lines), ScanReset(lines))
    decreases |lines|
  {
    if lines != [] {
      var n := |lines| - 1;
      ScanRelated(lines[..n]);
      StepRelated(Scan(lines[..n]), ScanReset(lines[..n]), lines[n]);
    }
  }

  /**
   * Not clearing the buffer on a finish line makes the scan emit the same run
   * again, but the merge gives the same order as with the buffer cleared.
   */
  lemma MergeIgnoresRepeatedRuns(existing: seq<string>, lines: seq<string>)
    ensures Merge(existing, Runs(lines)) == Merge(existing, RunsReset(lines))
  {
    ScanRelated(lines);
    EmitRelated(Scan(lines), ScanReset(lines));
    AppendNewDedup(existing, Flatten(Runs(lines)));
    AppendNewDedup(existing, Flatten(RunsReset(lines)));
  }
}
