/** What whole runs of the logger leave behind. */
module LogRuns {
  import opened Text
  import opened LogSpec

  // ---------------------------------------------------------------- slots

  /** The files fill the slots from the first on. */
  ghost predicate IsPrefix(s: Slots) { forall j :: FirstAbsent(s) <= j < SLOTS ==> s[j].None? }

  /** The files, in slot order. */
  function Present(s: Slots): (fs: seq<File>)
    ensures |fs| == FirstAbsent(s) && forall i :: 0 <= i < |fs| ==> fs[i] == s[i].value
  {
    seq(FirstAbsent(s), i requires 0 <= i < FirstAbsent(s) => s[i].value)
  }

  /** The last six. */
  function Keep<T>(h: seq<T>): seq<T> { if |h| <= SLOTS then h else h[|h| - SLOTS..] }

  lemma AbsentIs(s: seq<Option<File>>, k: nat)
    requires k <= |s| && (k < |s| ==> s[k].None?) && forall j :: 0 <= j < k ==> s[j].Some?
    ensures FirstAbsent(s) == k
  {
    hide FirstAbsent;
    var f := FirstAbsent(s);
    assert f < |s| ==> s[f].None?;
  }

  /** Opening a file on slots filled from the first on: the slot was free, the new file comes last,
      and the last six remain. */
  lemma OpenOne(s: Slots)
    requires IsPrefix(s)
    ensures Rotated(s)[OpenAt(s)].None?
    ensures IsPrefix(Reopened(s)) && Present(Reopened(s)) == Keep(Present(s) + [[]])
    ensures OpenAt(s) == |Present(Reopened(s))| - 1
  {
    hide FirstAbsent;
    var r := Reopened(s);
    AbsentIs(r, OpenAt(s) + 1);
  }

  /** The newest file is in the highest slot taken exactly when the slots were filled from the
      first on: a gap puts it before older files. */
  lemma NewestLastExact(s: Slots)
    ensures (forall j :: OpenAt(s) < j < SLOTS ==> Reopened(s)[j].None?) <==> IsPrefix(s)
  {
    hide FirstAbsent;
    var i := OpenAt(s);
    assert forall j :: i < j < SLOTS ==> Reopened(s)[j] == Rotated(s)[j];
    if !IsPrefix(s) {
      var j :| FirstAbsent(s) <= j < SLOTS && s[j].Some?;
      assert Reopened(s)[j].Some?;
    } else if FirstAbsent(s) < SLOTS {
      assert forall j :: i < j < SLOTS ==> Reopened(s)[j] == s[j];
    }
  }

  lemma AppendOne(s: Slots, line: Line)
    requires IsPrefix(s) && FirstAbsent(s) > 0
    ensures var p, last := Present(s), FirstAbsent(s) - 1;
      IsPrefix(Appended(s, last, line)) && Present(Appended(s, last, line)) == p[..last] + [p[last] + [line]]
  {
    hide FirstAbsent;
    var last := FirstAbsent(s) - 1;
    AbsentIs(Appended(s, last, line), last + 1);
  }

  /** The last five: what is left of six when room was made for a file that then could not be opened. */
  function KeepFive<T>(h: seq<T>): seq<T> { if |h| < SLOTS then h else h[|h| - SLOTS + 1..] }

  /** The slots hold the latest of all the files there were, in chronological order: the last six when
      the newest is open; when none is open, possibly only five. */
  ghost predicate Holds(slots: Slots, open: Option<nat>, all: seq<File>) {
    && IsPrefix(slots)
    && match open
       case Some(at) => all != [] && Present(slots) == Keep(all) && at == |Present(slots)| - 1
       case None => Present(slots) == Keep(all) || Present(slots) == KeepFive(all)
  }

  lemma KeepOne<T>(h: seq<T>, x: T)
    ensures Keep(Keep(h) + [x]) == Keep(h + [x]) && Keep(KeepFive(h) + [x]) == Keep(h + [x])
  {
  }

  lemma KeepLast<T>(h: seq<T>, y: T)
    requires h != []
    ensures Keep(h) != [] && Keep(h)[|Keep(h)| - 1] == h[|h| - 1]
    ensures Keep(h)[..|Keep(h)| - 1] + [y] == Keep(h[..|h| - 1] + [y])
  {
  }

  /** A new file is opened. */
  lemma HoldsOpened(slots: Slots, open: Option<nat>, all: seq<File>)
    requires Holds(slots, open, all)
    ensures Holds(Reopened(slots), Some(OpenAt(slots)), all + [[]])
  {
    hide FirstAbsent, Keep, KeepFive, Reopened, OpenAt;
    OpenOne(slots);
    KeepOne(all, []);
  }

  /** Room is made for one, but it is not opened. */
  lemma HoldsRoom(slots: Slots, open: Option<nat>, all: seq<File>)
    requires Holds(slots, open, all)
    ensures Holds(Rotated(slots), None, all)
  {
    hide FirstAbsent;
    var r := Rotated(slots);
    if FirstAbsent(slots) == SLOTS {
      AbsentIs(r, SLOTS - 1);
      assert Present(r) == Present(slots)[1..];
    }
  }

  /** The open file grows. */
  lemma HoldsAppended(slots: Slots, at: nat, all: seq<File>, line: Line)
    requires Holds(slots, Some(at), all) && at < SLOTS
    ensures Holds(Appended(slots, at, line), Some(at), all[..|all| - 1] + [all[|all| - 1] + [line]])
  {
    hide FirstAbsent, Keep, Appended;
    AppendOne(slots, line);
    KeepLast(all, all[|all| - 1] + [line]);
  }

  // ---------------------------------------------------------------- the reference

  function LastMessage(ls: seq<Line>): string { if ls == [] then "" else ls[|ls| - 1].message }

  function SizeOf(ls: seq<Line>): nat {
    if ls == [] then 0 else SizeOf(ls[..|ls| - 1]) + |ls[|ls| - 1].text|
  }

  /** A call adds its line, unless it is below the level or repeats the last message. */
  function NextLines(ls: seq<Line>, c: Call): seq<Line> {
    if Wanted(c) && c.message != LastMessage(ls) then ls + [Line(c.level, c.message, TextOf(c))] else ls
  }

  /** The lines a segment's calls leave in its file. */
  function LinesOf(cs: seq<Call>): seq<Line> {
    if cs == [] then [] else NextLines(LinesOf(cs[..|cs| - 1]), cs[|cs| - 1])
  }

  lemma LinesSnoc(cs: seq<Call>, c: Call)
    ensures LinesOf(cs + [c]) == NextLines(LinesOf(cs), c)
  {
    assert (cs + [c])[..|cs|] == cs;
  }

  /** The calls made while one pair of files was in use, and whether each of the two was open. */
  datatype Segment = Segment(calls: seq<Call>, logOpen: bool, errOpen: bool)

  /** How the calls fall into segments: a new one when the current is full and a log file opens; a call
      for which none opens is lost. */
  function Segments(cs: seq<Call>, logOpen: bool, errOpen: bool): (h: seq<Segment>)
    ensures h != []
  {
    if cs == [] then [Segment([], logOpen, logOpen && errOpen)]
    else NextSegments(Segments(cs[..|cs| - 1], logOpen, errOpen), cs[|cs| - 1])
  }

  function LinesIn(g: Segment): seq<Line> { LinesOf(g.calls) }

  predicate IsFull(g: Segment) { SizeOf(LinesIn(g)) >= FILE_SIZE }

  function NextSegments(h: seq<Segment>, c: Call): (h': seq<Segment>)
    requires h != []
    ensures h' != []
  {
    var cur := h[|h| - 1];
    if !IsFull(cur) then h[..|h| - 1] + [cur.(calls := cur.calls + [c])]
    else if c.logOpens then h + [Segment([c], true, c.errOpens)]
    else h
  }

  /** The lines that go to the error log too. */
  function Severe(ls: seq<Line>): seq<Line> {
    if ls == [] then []
    else Severe(ls[..|ls| - 1]) + if IsSevere(ls[|ls| - 1].level) then [ls[|ls| - 1]] else []
  }

  function LogFile(g: Segment): seq<File> { if g.logOpen then [LinesIn(g)] else [] }

  function ErrFile(g: Segment): seq<File> { if g.errOpen then [Severe(LinesIn(g))] else [] }

  /** The log files made, one for each segment that had one open. */
  function LogFiles(h: seq<Segment>): seq<File> {
    if h == [] then [] else LogFiles(h[..|h| - 1]) + LogFile(h[|h| - 1])
  }

  function ErrFiles(h: seq<Segment>): seq<File> {
    if h == [] then [] else ErrFiles(h[..|h| - 1]) + ErrFile(h[|h| - 1])
  }

  lemma FilesSnoc(h: seq<Segment>, g: Segment)
    ensures LogFiles(h + [g]) == LogFiles(h) + LogFile(g) && ErrFiles(h + [g]) == ErrFiles(h) + ErrFile(g)
  {
    assert (h + [g])[..|h|] == h;
  }

  // ---------------------------------------------------------------- the run

  /** Both logs hold the files `olderLogs` and `olderErrs` and those of the current segment; size counter
      and last message are the segment's. */
  ghost predicate Fits(s: State, olderLogs: seq<File>, olderErrs: seq<File>, g: Segment) {
    && Holds(s.logs, s.log, olderLogs + LogFile(g)) && Holds(s.errs, s.err, olderErrs + ErrFile(g))
    && s.size == SizeOf(LinesIn(g)) && s.last == LastMessage(LinesIn(g))
    && (s.err.Some? <==> g.errOpen) && (s.log.Some? ==> g.logOpen) && (s.log.None? ==> !g.logOpen || IsFull(g))
    && StateOk(s)
  }

  lemma SizeGrows(ls: seq<Line>, line: Line)
    ensures SizeOf(ls + [line]) == SizeOf(ls) + |line.text|
    ensures Severe(ls + [line]) == Severe(ls) + if IsSevere(line.level) then [line] else []
  {
    assert (ls + [line])[..|ls|] == ls;
  }

  /** One more line in a file, or none. */
  lemma ChannelWritten(slots: Slots, open: Option<nat>, older: seq<File>, file: File, line: Line)
    requires open.Some? ==> Holds(slots, open, older + [file]) && open.value < SLOTS
    ensures open.Some? ==> Holds(Appended(slots, open.value, line), open, older + [file + [line]])
  {
    hide Holds, Appended;
    if open.Some? {
      var all := older + [file];
      HoldsAppended(slots, open.value, all, line);
      assert all[..|all| - 1] == older && all[|all| - 1] == file;
    }
  }

  lemma WriteFits(s: State, olderLogs: seq<File>, olderErrs: seq<File>, g: Segment, c: Call)
    requires Fits(s, olderLogs, olderErrs, g) && (s.log.Some? <==> g.logOpen)
    ensures Fits(Written(s, c), olderLogs, olderErrs, g.(calls := g.calls + [c]))
  {
    hide Holds, TextOf, SizeOf, LinesOf, Appended, Severe, Wanted;
    LinesSnoc(g.calls, c);
    if Wanted(c) && c.message != s.last {
      var line := Line(c.level, c.message, TextOf(c));
      SizeGrows(LinesIn(g), line);
      ChannelWritten(s.logs, s.log, olderLogs, LinesIn(g), line);
      ChannelWritten(s.errs, s.err, olderErrs, Severe(LinesIn(g)), line);
      assert Severe(LinesIn(g)) + [] == Severe(LinesIn(g));
    }
  }

  /** Rotation: with a new log file a new segment begins; without, the current one stays the last. */
  lemma RefreshFits(s: State, olderLogs: seq<File>, olderErrs: seq<File>, g: Segment, c: Call)
    requires Fits(s, olderLogs, olderErrs, g) && IsFull(g)
    ensures var (t, ok) := Refreshed(s, c);
      if c.logOpens then ok && Fits(t, olderLogs + LogFile(g), olderErrs + ErrFile(g), Segment([], true, c.errOpens))
      else !ok && Fits(t, olderLogs, olderErrs, g)
  {
    hide Holds, Rotated, OpenAt, Reopened, LinesOf, Severe;
    var logs, errs := olderLogs + LogFile(g), olderErrs + ErrFile(g);
    HoldsOpened(s.logs, s.log, logs);
    HoldsRoom(s.logs, s.log, logs);
    HoldsOpened(s.errs, s.err, errs);
    HoldsRoom(s.errs, s.err, errs);
    NoLines();
    assert errs + [] == errs;
  }

  lemma NoLines()
    ensures LinesOf([]) == [] && Severe([]) == []
  {
  }

  /** The state fits the files found at the start and all the segments since. */
  ghost predicate FitsAll(s: State, foundLogs: seq<File>, foundErrs: seq<File>, h: seq<Segment>) {
    && h != []
    && Fits(s, foundLogs + LogFiles(h[..|h| - 1]), foundErrs + ErrFiles(h[..|h| - 1]), h[|h| - 1])
  }

  lemma StepFits(s: State, foundLogs: seq<File>, foundErrs: seq<File>, h: seq<Segment>, c: Call)
    requires FitsAll(s, foundLogs, foundErrs, h) && StateOk(s)
    ensures FitsAll(LogString(s, c).0, foundLogs, foundErrs, NextSegments(h, c))
    ensures LogString(s, c).1 <==> !IsFull(h[|h| - 1]) || c.logOpens
  {
    hide Holds, Refreshed, Written, SizeOf, LinesOf, LogFile, ErrFile, LogFiles, ErrFiles, LastMessage;
    var before, g := h[..|h| - 1], h[|h| - 1];
    var logs, errs := foundLogs + LogFiles(before), foundErrs + ErrFiles(before);
    if IsFull(g) {
      RefreshFits(s, logs, errs, g, c);
      if c.logOpens {
        var begun := Segment([], true, c.errOpens);
        OpenStays(s, c);
        WriteFits(Refreshed(s, c).0, logs + LogFile(g), errs + ErrFile(g), begun, c);
        assert begun.(calls := begun.calls + [c]) == Segment([c], true, c.errOpens) by { assert [] + [c] == [c]; }
        NewSegment(foundLogs, foundErrs, before, g, Segment([c], true, c.errOpens));
        assert h == before + [g];
      }
    } else {
      SmallStays(s, c);
      WriteFits(s, logs, errs, g, c);
      var g' := g.(calls := g.calls + [c]);
      assert (before + [g'])[..|before|] == before;
    }
  }

  lemma NewSegment(foundLogs: seq<File>, foundErrs: seq<File>, before: seq<Segment>, g: Segment, next: Segment)
    ensures var h := before + [g] + [next];
      && h[..|h| - 1] == before + [g] && h[|h| - 1] == next
      && foundLogs + LogFiles(before + [g]) == foundLogs + LogFiles(before) + LogFile(g)
      && foundErrs + ErrFiles(before + [g]) == foundErrs + ErrFiles(before) + ErrFile(g)
  {
    hide LogFiles, ErrFiles, LogFile, ErrFile;
    FilesSnoc(before, g);
    Assoc(foundLogs, LogFiles(before), LogFile(g));
    Assoc(foundErrs, ErrFiles(before), ErrFile(g));
  }

  lemma SmallStays(s: State, c: Call)
    requires StateOk(s) && s.size < FILE_SIZE
    ensures Refreshed(s, c) == (s, true)
  {
  }

  lemma OpenStays(s: State, c: Call)
    requires StateOk(s) && s.size >= FILE_SIZE && c.logOpens
    ensures Refreshed(s, c).0.log.Some? && Refreshed(s, c).1
  {
  }

  lemma OpenFits(logs: Slots, errs: Slots, logOpens: bool, errOpens: bool)
    requires IsPrefix(logs) && IsPrefix(errs)
    ensures FitsAll(Opened(logs, errs, logOpens, errOpens), Present(logs), Present(errs), Segments([], logOpens, errOpens))
  {
    hide Rotated, OpenAt, Reopened, FirstAbsent;
    var l, e := Present(logs), Present(errs);
    assert Keep(l) == l && Keep(e) == e;
    HoldsOpened(logs, None, l);
    HoldsRoom(logs, None, l);
    HoldsOpened(errs, None, e);
    HoldsRoom(errs, None, e);
    NoLines();
    var h := Segments([], logOpens, errOpens);
    assert h[..0] == [] && l + [] == l && e + [] == e;
  }

  lemma {:induction false} RunFits(logs: Slots, errs: Slots, logOpens: bool, errOpens: bool, cs: seq<Call>)
    requires IsPrefix(logs) && IsPrefix(errs)
    ensures FitsAll(LogAll(Opened(logs, errs, logOpens, errOpens), cs), Present(logs), Present(errs), Segments(cs, logOpens, errOpens))
  {
    hide FitsAll, IsPrefix, LogString, NextSegments, Present, Opened;
    if cs == [] {
      OpenFits(logs, errs, logOpens, errOpens);
    } else {
      var before, c := cs[..|cs| - 1], cs[|cs| - 1];
      RunFits(logs, errs, logOpens, errOpens, before);
      StepFits(LogAll(Opened(logs, errs, logOpens, errOpens), before), Present(logs), Present(errs), Segments(before, logOpens, errOpens), c);
    }
  }

  /** MAIN RESULT.  After any run of calls, whichever files can be opened, started on slots filled from
      the first on: the log's slots hold the latest files -- those found at the start and one for
      each segment since that had one -- in chronological order, each with exactly its segment's
      lines, six of them while the newest is open; and the error log's slots hold its files the
      same way, each with exactly the severe lines of its segment. */
  lemma RotationHistory(logs: Slots, errs: Slots, logOpens: bool, errOpens: bool, cs: seq<Call>)
    requires IsPrefix(logs) && IsPrefix(errs)
    ensures var s, h := LogAll(Opened(logs, errs, logOpens, errOpens), cs), Segments(cs, logOpens, errOpens);
      && Holds(s.logs, s.log, Present(logs) + LogFiles(h))
      && Holds(s.errs, s.err, Present(errs) + ErrFiles(h))
      && s.size == SizeOf(LinesIn(h[|h| - 1])) && (s.err.Some? <==> h[|h| - 1].errOpen)
      && (s.size < FILE_SIZE ==> (s.log.Some? <==> h[|h| - 1].logOpen))
  {
    hide Holds, LinesOf, SizeOf, LogAll, Segments, LogFiles, ErrFiles, LogFile, ErrFile, Present, IsPrefix, Opened;
    RunFits(logs, errs, logOpens, errOpens, cs);
    var h := Segments(cs, logOpens, errOpens);
    var before, g := h[..|h| - 1], h[|h| - 1];
    assert h == before + [g];
    NewSegment(Present(logs), Present(errs), before, g, g);
  }

  // ---------------------------------------------------------------- contents and size

  function Messages(ls: seq<Line>): (ms: seq<string>)
    ensures |ms| == |ls| && forall i :: 0 <= i < |ls| ==> ms[i] == ls[i].message
  {
    seq(|ls|, i requires 0 <= i < |ls| => ls[i].message)
  }

  /** The messages the level lets through. */
  function Passing(cs: seq<Call>): seq<string> {
    if cs == [] then [] else (if Wanted(cs[0]) then [cs[0].message] else []) + Passing(cs[1..])
  }

  /** Adjacent repeats removed, `prev` standing before the first. */
  function Squeezed(prev: string, ms: seq<string>): seq<string>
    decreases |ms|
  {
    if ms == [] then []
    else if ms[0] == prev then Squeezed(prev, ms[1..])
    else [ms[0]] + Squeezed(ms[0], ms[1..])
  }

  lemma {:induction false} PassingSnoc(cs: seq<Call>, c: Call)
    ensures Passing(cs + [c]) == Passing(cs) + if Wanted(c) then [c.message] else []
  {
    if cs == [] {
      assert [c][1..] == [];
    } else {
      assert (cs + [c])[1..] == cs[1..] + [c];
      PassingSnoc(cs[1..], c);
    }
  }

  lemma {:induction false} SqueezedSnoc(prev: string, ms: seq<string>, m: string)
    ensures var q := Squeezed(prev, ms);
      var last := if q == [] then prev else q[|q| - 1];
      Squeezed(prev, ms + [m]) == if m == last then q else q + [m]
    decreases |ms|
  {
    if ms == [] {
      assert [m][1..] == [];
    } else {
      assert (ms + [m])[1..] == ms[1..] + [m];
      SqueezedSnoc(ms[0], ms[1..], m);
      if ms[0] != prev { Assoc([ms[0]], Squeezed(ms[0], ms[1..]), [m]); }
    }
  }

  /** MAIN RESULT.  The messages in a segment's file are those the level let through, adjacent repeats
      removed, starting from the empty last message. */
  lemma {:induction false} SegmentContents(cs: seq<Call>)
    ensures Messages(LinesOf(cs)) == Squeezed("", Passing(cs))
  {
    hide Passing, Squeezed;
    if cs == [] {
      NothingPasses();
    } else {
      var before, c := cs[..|cs| - 1], cs[|cs| - 1];
      SegmentContents(before);
      ContentsStep(before, c);
      assert cs == before + [c];
    }
  }

  lemma NothingPasses()
    ensures Messages(LinesOf([])) == [] && Squeezed("", Passing([])) == []
  {
  }

  lemma ContentsStep(cs: seq<Call>, c: Call)
    requires Messages(LinesOf(cs)) == Squeezed("", Passing(cs))
    ensures Messages(LinesOf(cs + [c])) == Squeezed("", Passing(cs + [c]))
  {
    hide Passing, Squeezed, LinesOf, TextOf, Wanted;
    var ls := LinesOf(cs);
    LinesSnoc(cs, c);
    PassingSnoc(cs, c);
    SqueezedSnoc("", Passing(cs), c.message);
    assert Passing(cs) + [] == Passing(cs);
    assert LastMessage(ls) == if ls == [] then "" else Messages(ls)[|ls| - 1];
    assert Messages(ls + [Line(c.level, c.message, TextOf(c))]) == Messages(ls) + [c.message];
  }

  lemma LineAdds(cs: seq<Call>, c: Call)
    ensures SizeOf(LinesOf(cs + [c])) < SizeOf(LinesOf(cs)) + BUF_LEN
  {
    hide TextOf, LinesOf, SizeOf;
    LinesSnoc(cs, c);
    var ls := LinesOf(cs);
    SizeGrows(ls, Line(c.level, c.message, TextOf(c)));
  }

  /** MAIN RESULT.  No segment reaches `LOG_FILE_SIZE + LOG_STR_BUF_LEN` bytes, 40 MiB and a line buffer. */
  lemma {:induction false} SegmentBound(cs: seq<Call>, logOpens: bool, errOpens: bool, i: nat)
    requires i < |Segments(cs, logOpens, errOpens)|
    ensures SizeOf(LinesIn(Segments(cs, logOpens, errOpens)[i])) < 41_943_040 + 8196
    decreases |cs|
  {
    hide LinesOf, SizeOf;
    if cs == [] {
      EmptySize();
    } else {
      var h, c := Segments(cs[..|cs| - 1], logOpens, errOpens), cs[|cs| - 1];
      if i < |h| {
        SegmentBound(cs[..|cs| - 1], logOpens, errOpens, i);
        LineAdds(h[i].calls, c);
      } else {
        EmptySize();
        LineAdds([], c);
        assert [] + [c] == [c];
      }
    }
  }

  lemma EmptySize()
    ensures SizeOf(LinesOf([])) == 0
  {
  }

  function CallsOf(h: seq<Segment>): (r: seq<seq<Call>>)
    ensures |r| == |h| && forall i :: 0 <= i < |h| ==> r[i] == h[i].calls
  {
    seq(|h|, i requires 0 <= i < |h| => h[i].calls)
  }

  /** The calls for which `log_string` returns 0. */
  function Answered(s: State, cs: seq<Call>): seq<Call>
    requires StateOk(s)
  {
    if cs == [] then []
    else
      var before, c := cs[..|cs| - 1], cs[|cs| - 1];
      Answered(s, before) + if LogString(LogAll(s, before), c).1 then [c] else []
  }

  /** The segments are the answered calls, cut. */
  lemma {:induction false} SegmentsCover(logs: Slots, errs: Slots, logOpens: bool, errOpens: bool, cs: seq<Call>)
    requires IsPrefix(logs) && IsPrefix(errs)
    ensures Flatten(CallsOf(Segments(cs, logOpens, errOpens))) == Answered(Opened(logs, errs, logOpens, errOpens), cs)
  {
    hide FitsAll, IsPrefix, LogString, Opened, Present, IsFull, LogAll;
    var s0 := Opened(logs, errs, logOpens, errOpens);
    if cs == [] {
      var r := CallsOf(Segments(cs, logOpens, errOpens));
      assert r[..0] == [] && Flatten(r[..0]) == [] && r[0] == [];
    } else {
      var before, c := cs[..|cs| - 1], cs[|cs| - 1];
      var h := Segments(before, logOpens, errOpens);
      SegmentsCover(logs, errs, logOpens, errOpens, before);
      RunFits(logs, errs, logOpens, errOpens, before);
      StepFits(LogAll(s0, before), Present(logs), Present(errs), h, c);
      CoverStep(h, c);
    }
  }

  lemma CoverStep(h: seq<Segment>, c: Call)
    requires h != []
    ensures Flatten(CallsOf(NextSegments(h, c)))
         == Flatten(CallsOf(h)) + if !IsFull(h[|h| - 1]) || c.logOpens then [c] else []
  {
    hide IsFull;
    var before, g := h[..|h| - 1], h[|h| - 1];
    assert CallsOf(h) == CallsOf(before) + [g.calls];
    FlattenSnoc(CallsOf(before), g.calls);
    if !IsFull(g) {
      assert CallsOf(NextSegments(h, c)) == CallsOf(before) + [g.calls + [c]];
      FlattenSnoc(CallsOf(before), g.calls + [c]);
      Assoc(Flatten(CallsOf(before)), g.calls, [c]);
    } else if c.logOpens {
      assert CallsOf(NextSegments(h, c)) == CallsOf(h) + [[c]];
      FlattenSnoc(CallsOf(h), [c]);
    }
  }
}
