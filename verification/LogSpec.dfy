/** The rotating log as values: six file slots, and what a run of `log_string` calls leaves in them. */
module LogSpec {
  import opened Text

  const SLOTS := 6                  // MAX_LOOP_FILE
  const FILE_SIZE := 1024 * 1024 * 40
  const BUF_LEN := 8196             // LOG_STR_BUF_LEN

  /** One line of a file: the level and message it reports, and the text written. */
  datatype Line = Line(level: int, message: string, text: string)

  type File = seq<Line>
  type Slots = s: seq<Option<File>> | |s| == SLOTS witness [None, None, None, None, None, None]

  // ---------------------------------------------------------------- rotation

  /** The first slot without a file, or 6. */
  function FirstAbsent(s: seq<Option<File>>): (i: nat)
    ensures i <= |s| && (i < |s| ==> s[i].None?) && forall j :: 0 <= j < i ==> s[j].Some?
  {
    if s == [] || s[0].None? then 0 else 1 + FirstAbsent(s[1..])
  }

  /** `move_log_file`: when every slot is taken, the oldest file goes and the others move up. */
  function Rotated(s: Slots): Slots {
    if FirstAbsent(s) == SLOTS then s[1..] + [None] else s
  }

  /** The slot it returns for opening. */
  function OpenAt(s: Slots): (i: nat)
    ensures i < SLOTS
  {
    if FirstAbsent(s) == SLOTS then SLOTS - 1 else FirstAbsent(s)
  }

  /** A new, empty file in the slot chosen. */
  function Reopened(s: Slots): Slots { Rotated(s)[OpenAt(s) := Some([])] }

  function Appended(s: Slots, at: nat, line: Line): Slots
    requires at < SLOTS
  {
    s[at := Some((if s[at].Some? then s[at].value else []) + [line])]
  }

  // ---------------------------------------------------------------- log_string

  const INFO := 0
  const WARN := 1
  const ERROR := 2
  const FATAL := 3
  const SYS := 4

  datatype Call = Call(
    level: int, message: string,
    threshold: int,   // log_level at that moment
    stamp: string,    // the current time
    logOpens: bool, errOpens: bool)   // what fopen would give

  predicate Wanted(c: Call) { c.level == SYS || (INFO <= c.level <= FATAL && c.threshold <= c.level) }

  function Prefix(c: Call): string {
    var stamp := "[" + c.stamp + "] ";
    match c.level
    case 0 => stamp + "[INFO ] "
    case 1 => stamp + "[WARN ] "
    case 2 => stamp + "[ERROR] "
    case 3 => stamp + "[FATAL] "
    case _ => stamp
  }

  /** `snprintf` into a buffer of `LOG_STR_BUF_LEN` bytes. */
  function TextOf(c: Call): (t: string)
    ensures |t| < BUF_LEN
  {
    var t := Prefix(c) + c.message;
    if |t| < BUF_LEN then t else t[..BUF_LEN - 1]
  }

  datatype State = State(
    logs: Slots, errs: Slots,
    log: Option<nat>, err: Option<nat>,   // pf_log, pf_log_err: the open slots
    size: nat,                            // currFileSize
    last: string)                         // last_log_str

  ghost predicate StateOk(s: State) {
    (s.log.Some? ==> s.log.value < SLOTS) && (s.err.Some? ==> s.err.value < SLOTS)
  }

  /** The files are rotated when the current one is full; opening the new log file may fail. */
  function Refreshed(s: State, c: Call): (r: (State, bool))
    requires StateOk(s)
    ensures StateOk(r.0)
  {
    if s.size < FILE_SIZE then (s, true)
    else if !c.logOpens then (s.(logs := Rotated(s.logs), log := None), false)
    else
      (State(Reopened(s.logs),
             if c.errOpens then Reopened(s.errs) else Rotated(s.errs),
             Some(OpenAt(s.logs)),
             if c.errOpens then Some(OpenAt(s.errs)) else None,
             0, ""), true)
  }

  predicate IsSevere(level: int) { level == ERROR || level == FATAL }

  /** The line is written to the open files. */
  function Written(s: State, c: Call): (r: State)
    requires StateOk(s)
    ensures StateOk(r)
  {
    if c.message == s.last || !Wanted(c) then s
    else
      var line := Line(c.level, c.message, TextOf(c));
      s.(errs := if s.err.Some? && IsSevere(c.level) then Appended(s.errs, s.err.value, line) else s.errs,
         logs := if s.log.Some? then Appended(s.logs, s.log.value, line) else s.logs,
         last := c.message,
         size := s.size + |line.text|)
  }

  /** `log_string`, and whether it returns 0. */
  function LogString(s: State, c: Call): (r: (State, bool))
    requires StateOk(s)
    ensures StateOk(r.0)
  {
    var (t, ok) := Refreshed(s, c);
    if ok then (Written(t, c), true) else (t, false)
  }

  /** `log_init` before it logs the start; without a log file it gives up before the error file. */
  function Opened(logs: Slots, errs: Slots, logOpens: bool, errOpens: bool): (r: State)
    ensures StateOk(r)
  {
    if !logOpens then State(Rotated(logs), errs, None, None, 0, "")
    else
      State(Reopened(logs), if errOpens then Reopened(errs) else Rotated(errs),
            Some(OpenAt(logs)), if errOpens then Some(OpenAt(errs)) else None, 0, "")
  }

  function LogAll(s: State, cs: seq<Call>): (r: State)
    requires StateOk(s)
    ensures StateOk(r)
    decreases |cs|
  {
    if cs == [] then s else LogString(LogAll(s, cs[..|cs| - 1]), cs[|cs| - 1]).0
  }
}
