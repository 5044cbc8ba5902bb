/** What one call writes where, with the levels, tags and limits written out. */
module LogLines {
  import opened Text
  import opened LogSpec

  /** The tag of a level: INFO, WARN, ERROR, FATAL; the system level has none. */
  function Tag(level: int): string {
    if level == 0 then "[INFO ] "
    else if level == 1 then "[WARN ] "
    else if level == 2 then "[ERROR] "
    else if level == 3 then "[FATAL] "
    else ""
  }

  /** The line a call leaves: time stamp, tag and message, as far as 8195 bytes hold them. */
  function Left(c: Call): Line {
    var t := "[" + c.stamp + "] " + Tag(c.level) + c.message;
    Line(c.level, c.message, if |t| <= 8195 then t else t[..8195])
  }

  /** One of the five levels, and not below the threshold, which the system level passes always. */
  predicate Passes(c: Call) { c.level == 4 || (0 <= c.level <= 3 && c.threshold <= c.level) }

  lemma PassesExact(c: Call)
    ensures Wanted(c) <==> Passes(c)
  {
  }

  lemma LeftExact(c: Call)
    requires Passes(c)
    ensures Line(c.level, c.message, TextOf(c)) == Left(c)
  {
    var stamp := "[" + c.stamp + "] ";
    assert stamp + "" == stamp;
  }

  /** MAIN RESULT.  A call on a file that is not full: a repeat of the last message, or a message the level
      holds back, changes nothing.  Any other leaves exactly one line at the end of the log file, and
      at the end of the error file if its level is ERROR or FATAL; it is counted and remembered. */
  lemma CallExact(s: State, c: Call)
    requires StateOk(s) && s.size < 41_943_040
    ensures var t := LogString(s, c).0;
      var file := (f: Option<File>) => Some((if f.Some? then f.value else []) + [Left(c)]);
      && LogString(s, c).1
      && (c.message == s.last || !Passes(c) ==> t == s)
      && (c.message != s.last && Passes(c) ==>
           && t.last == c.message && t.size == s.size + |Left(c).text| && t.log == s.log && t.err == s.err
           && t.logs == (if s.log.Some? then s.logs[s.log.value := file(s.logs[s.log.value])] else s.logs)
           && t.errs == if s.err.Some? && (c.level == 2 || c.level == 3)
                        then s.errs[s.err.value := file(s.errs[s.err.value])] else s.errs)
  {
    hide Tag, TextOf;
    PassesExact(c);
    if Passes(c) { LeftExact(c); }
  }

  /** Whether anything is written at all, said of the state alone. */
  lemma WrittenExact(s: State, c: Call)
    requires StateOk(s) && s.size < 41_943_040 && c.message != s.last
    ensures LogString(s, c).0 != s <==> c.level == 4 || (0 <= c.level <= 3 && c.threshold <= c.level)
  {
    hide LogString;
    CallExact(s, c);
  }

  /** From 41943040 bytes on the files are rotated first. */
  lemma RotatesExact(s: State, c: Call)
    requires StateOk(s)
    ensures s.size < 41_943_040 ==> Refreshed(s, c) == (s, true)
    ensures s.size >= 41_943_040 ==>
      Refreshed(s, c).1 == c.logOpens && Refreshed(s, c).0.logs == if c.logOpens then Reopened(s.logs) else Rotated(s.logs)
  {
    hide Rotated, Reopened, OpenAt;
  }
}
