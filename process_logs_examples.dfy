/** Small logs worked through the scan and the merge. */
module ProcessYtctLogsExamples {
  import opened ProcessYtctLogs

  /** The log line `[post:<id>]`. */
  function Mention(id: string): string
  {
    MentionOpen + id + "]"
  }

  /** A word with a space at position 6 does not occur in a line without a space. */
  lemma NotContainedWithoutSpace(line: string, w: string)
    requires |w| > 6 && w[6] == ' '
    requires forall k :: 0 <= k < |line| ==> line[k] != ' '
    ensures !Contains(line, w)
  {
    ContainsIsSubstring(line, w);
  }

  /** Neither marker can occur in a line without a space. */
  lemma NoMarkerWithoutSpace(line: string)
    requires forall k :: 0 <= k < |line| ==> line[k] != ' '
    ensures !Contains(line, StartMarker) && !Contains(line, FinishMarker)
  {
    assert StartMarker[6] == ' ' && FinishMarker[6] == ' ';
    NotContainedWithoutSpace(line, StartMarker);
    NotContainedWithoutSpace(line, FinishMarker);
  }

  lemma MentionHasNoSpace(id: string)
    requires ValidId(id)
    ensures forall k :: 0 <= k < |Mention(id)| ==> Mention(id)[k] != ' '
  {
    var line := Mention(id);
    forall k | 0 <= k < |line| ensures line[k] != ' ' {
      if 6 <= k < 6 + |id| {
        assert line[k] == id[k - 6];
      }
    }
  }

  /** A line `[post:<id>]` is a mention of that id and of nothing else. */
  lemma ClassifyMention(id: string)
    requires ValidId(id)
    ensures Classify(Mention(id)) == MentionLine(id)
  {
    var line := Mention(id);
    MentionHasNoSpace(id);
    NoMarkerWithoutSpace(line);
    assert line[0..|line|] == line;
    assert PatternAt(line, 0, id);
    FirstMentionIsLeftmostMatch(line, id);
  }

  lemma ClassifyMarkers()
    ensures Classify(StartMarker) == StartLine
    ensures Classify(FinishMarker) == FinishLine
  {
    assert StartMarker[..|StartMarker|] == StartMarker;
    assert FinishMarker[..|FinishMarker|] == FinishMarker;
  }

  lemma ScanSnoc(lines: seq<string>, line: string)
    ensures Scan(lines + [line]) == Step(Scan(lines), line)
    ensures ScanReset(lines + [line]) == StepReset(ScanReset(lines), line)
  {
    assert (lines + [line])[..|lines|] == lines;
  }

  /** Within one run an id is kept at its first mention only. */
  lemma DedupWithinRun(a: string, b: string, c: string)
    requires ValidId(a) && ValidId(b) && ValidId(c)
    requires a != b && a != c && b != c
    ensures Runs([StartMarker, Mention(a), Mention(b), Mention(a), Mention(c)]) == [[a, b, c]]
  {
    ClassifyMarkers();
    ClassifyMention(a);
    ClassifyMention(b);
    ClassifyMention(c);
    var l1 := [StartMarker];
    assert l1 == [] + [StartMarker];
    ScanSnoc([], StartMarker);
    assert Scan(l1) == ScanState(true, [], []);
    var l2 := l1 + [Mention(a)];
    ScanSnoc(l1, Mention(a));
    assert Scan(l2) == ScanState(true, [a], []);
    var l3 := l2 + [Mention(b)];
    ScanSnoc(l2, Mention(b));
    assert Scan(l3) == ScanState(true, [a, b], []);
    var l4 := l3 + [Mention(a)];
    ScanSnoc(l3, Mention(a));
    assert Scan(l4) == ScanState(true, [a, b], []);
    var l5 := l4 + [Mention(c)];
    ScanSnoc(l4, Mention(c));
    assert Scan(l5) == ScanState(true, [a, b, c], []);
    assert l5 == [StartMarker, Mention(a), Mention(b), Mention(a), Mention(c)];
  }

  /** A session without a finish line still gives its run at the end of the log. */
  lemma OpenSessionFlushed(a: string, b: string)
    requires ValidId(a) && ValidId(b) && a != b
    ensures Runs([StartMarker, Mention(a), Mention(b)]) == [[a, b]]
  {
    ClassifyMarkers();
    ClassifyMention(a);
    ClassifyMention(b);
    var l1 := [StartMarker];
    assert l1 == [] + [StartMarker];
    ScanSnoc([], StartMarker);
    var l2 := l1 + [Mention(a)];
    ScanSnoc(l1, Mention(a));
    var l3 := l2 + [Mention(b)];
    ScanSnoc(l2, Mention(b));
    assert Scan(l3) == ScanState(true, [a, b], []);
    assert l3 == [StartMarker, Mention(a), Mention(b)];
  }

  /**
   * A mention before the first start line is dropped. The finish line emits
   * the run and keeps it in the buffer, so the end of the log emits it again;
   * with the buffer cleared on finish there would be one run. The merge
   * result is the same either way.
   */
  lemma FinishLineRepeatsRun(x: string, y: string)
    requires ValidId(x) && ValidId(y)
    ensures Runs([Mention(x), StartMarker, Mention(y), FinishMarker]) == [[y], [y]]
    ensures RunsReset([Mention(x), StartMarker, Mention(y), FinishMarker]) == [[y]]
    ensures Merge([], Runs([Mention(x), StartMarker, Mention(y), FinishMarker])) == [y]
  {
    RepeatedRunScan(x, y);
    MergeRepeatedRun(y);
  }

  lemma MergeRepeatedRun(y: string)
    ensures Merge([], [[y], [y]]) == [y]
  {
    var runs := [[y], [y]];
    assert runs[..1] == [[y]];
    assert [[y]][..0] == [];
    assert Flatten([[y]]) == [y];
    assert Flatten(runs) == [y] + [y];
    assert [y] + [y] == [y, y];
    assert [y, y][..1] == [y] && [y][..0] == [];
    assert AppendNew([], [y]) == [y];
  }

  lemma RepeatedRunScan(x: string, y: string)
    requires ValidId(x) && ValidId(y)
    ensures Runs([Mention(x), StartMarker, Mention(y), FinishMarker]) == [[y], [y]]
    ensures RunsReset([Mention(x), StartMarker, Mention(y), FinishMarker]) == [[y]]
  {
    ClassifyMarkers();
    ClassifyMention(x);
    ClassifyMention(y);
    var l1 := [Mention(x)];
    assert l1 == [] + [Mention(x)];
    ScanSnoc([], Mention(x));
    assert Scan(l1) == ScanState(false, [], []);
    assert ScanReset(l1) == ScanState(false, [], []);
    var l2 := l1 + [StartMarker];
    ScanSnoc(l1, StartMarker);
    var l3 := l2 + [Mention(y)];
    ScanSnoc(l2, Mention(y));
    assert Scan(l3) == ScanState(true, [y], []);
    assert ScanReset(l3) == ScanState(true, [y], []);
    var l4 := l3 + [FinishMarker];
    ScanSnoc(l3, FinishMarker);
    assert Scan(l4) == ScanState(false, [y], [[y]]);
    assert ScanReset(l4) == ScanState(false, [], [[y]]);
    assert l4 == [Mention(x), StartMarker, Mention(y), FinishMarker];
  }

  /** A start line that also mentions a post is only a start line. */
  lemma MarkerLineNotScanned(a: string, z: string)
    requires ValidId(a)
    ensures Runs([StartMarker, Mention(a), Mention(z) + " " + StartMarker]) == [[a]]
  {
    var marked := Mention(z) + " " + StartMarker;
    var p := |Mention(z)| + 1;
    ClassifyMarkers();
    ClassifyMention(a);
    SplitThree(marked, Mention(z), " ", StartMarker);
    assert marked[p..p + |StartMarker|] == marked[p..];
    assert OccursAt(marked, p, StartMarker);
    ContainsIsSubstring(marked, StartMarker);
    assert Classify(marked) == StartLine;
    var l1 := [StartMarker];
    assert l1 == [] + [StartMarker];
    ScanSnoc([], StartMarker);
    var l2 := l1 + [Mention(a)];
    ScanSnoc(l1, Mention(a));
    assert Scan(l2) == ScanState(true, [a], []);
    var l3 := l2 + [marked];
    ScanSnoc(l2, marked);
    assert Scan(l3) == ScanState(true, [], [[a]]);
    assert l3 == [StartMarker, Mention(a), marked];
  }

  /** Only the first match on a line counts. */
  lemma FirstMatchOnly(a: string, b: string)
    requires ValidId(a) && ValidId(b)
    ensures Runs([StartMarker, Mention(a) + Mention(b)]) == [[a]]
  {
    var line := Mention(a) + Mention(b);
    MentionHasNoSpace(a);
    MentionHasNoSpace(b);
    forall k | 0 <= k < |line| ensures line[k] != ' ' {
      if k >= |Mention(a)| {
        assert line[k] == Mention(b)[k - |Mention(a)|];
      }
    }
    NoMarkerWithoutSpace(line);
    assert line[0..|Mention(a)|] == Mention(a);
    assert PatternAt(line, 0, a);
    FirstMentionIsLeftmostMatch(line, a);
    assert Classify(line) == MentionLine(a);
    ClassifyMarkers();
    var l1 := [StartMarker];
    assert l1 == [] + [StartMarker];
    ScanSnoc([], StartMarker);
    var l2 := l1 + [line];
    ScanSnoc(l1, line);
    assert Scan(l2) == ScanState(true, [a], []);
    assert l2 == [StartMarker, line];
  }
}
