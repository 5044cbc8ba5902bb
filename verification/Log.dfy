/** The logger: its file slots, and the static variables `log_string` updates under its mutex. */
module Log {
  import opened Text
  import opened LogSpec

  /** Six numbered file names in the log directory. */
  class FileSlots {
    var files: Slots

    constructor (files: Slots)
      ensures this.files == files
    {
      this.files := files;
    }

    /** `remove`, then `rename`: the next file takes the place of the previous one. */
    method MoveUp(i: nat)
      requires 1 <= i < SLOTS
      modifies this
      ensures files == old(files)[i - 1 := old(files)[i]][i := None]
    {
      if files[i - 1].Some? {
        files := files[i - 1 := None];
      }
      if files[i].Some? {
        files := files[i - 1 := files[i]][i := None];
      }
    }

    /** `move_log_file` and `move_err_file` */
    method Move() returns (lastIndex: nat)
      modifies this
      ensures files == Rotated(old(files)) && lastIndex == OpenAt(old(files))
      ensures files[lastIndex].None?
    {
      lastIndex := SLOTS - 1;
      var i := 0;
      while i < SLOTS
        invariant 0 <= i <= SLOTS && files == old(files) && lastIndex == SLOTS - 1
        invariant forall j :: 0 <= j < i ==> files[j].Some?
      {
        if files[i].None? {
          lastIndex := i;
          break;
        }
        i := i + 1;
      }
      FirstAbsentIs(files, i);
      if lastIndex == SLOTS - 1 && files[lastIndex].Some? {
        i := 1;
        while i < SLOTS
          invariant 1 <= i <= SLOTS
          invariant forall j :: 0 <= j < i - 1 ==> files[j] == old(files)[j + 1]
          invariant forall j :: i <= j < SLOTS ==> files[j] == old(files)[j]
          invariant i > 1 ==> files[i - 1].None?
        {
          MoveUp(i);
          i := i + 1;
        }
        assert files == old(files)[1..] + [None];
      }
    }
  }

  lemma FirstAbsentIs(s: Slots, i: nat)
    requires i <= SLOTS && (forall j :: 0 <= j < i ==> s[j].Some?) && (i < SLOTS ==> s[i].None?)
    ensures FirstAbsent(s) == i
  {
  }

  class Logger {
    const logs: FileSlots
    const errs: FileSlots
    var log: Option<nat>
    var err: Option<nat>
    var size: nat
    var last: string

    ghost predicate Valid()
      reads this
    {
      logs != errs && (log.Some? ==> log.value < SLOTS) && (err.Some? ==> err.value < SLOTS)
    }

    ghost function View(): State
      requires Valid()
      reads this, logs, errs
    {
      State(logs.files, errs.files, log, err, size, last)
    }

    /** The opening part of `log_init`; `log` stays empty where it returns -1. */
    constructor (logs: FileSlots, errs: FileSlots, logOpens: bool, errOpens: bool)
      requires logs != errs
      modifies logs, errs
      ensures Valid() && View() == Opened(old(logs.files), old(errs.files), logOpens, errOpens)
      ensures this.logs == logs && this.errs == errs
    {
      this.logs, this.errs := logs, errs;
      log, err, size, last := None, None, 0, "";
      var i := logs.Move();
      if logOpens {
        logs.files := logs.files[i := Some([])];
        log := Some(i);
        var j := errs.Move();
        if errOpens {
          errs.files := errs.files[j := Some([])];
          err := Some(j);
        }
      }
    }

    /** The rotation in `log_string`. */
    method Refresh(c: Call) returns (ok: bool)
      requires Valid()
      modifies this, logs, errs
      ensures Valid() && (View(), ok) == Refreshed(old(View()), c)
    {
      if size < FILE_SIZE { return true; }
      var i := logs.Move();
      if !c.logOpens {
        log := None;
        return false;
      }
      logs.files := logs.files[i := Some([])];
      log, size, last := Some(i), 0, "";
      var j := errs.Move();
      if c.errOpens {
        errs.files := errs.files[j := Some([])];
        err := Some(j);
      } else {
        err := None;
      }
      ok := true;
    }

    /** `log_string`: one call leaves the logger as `LogSpec.LogString` says. */
    method LogString(c: Call) returns (ok: bool)
      requires Valid() && |c.message| < BUF_LEN
      modifies this, logs, errs
      ensures Valid() && (View(), ok) == LogSpec.LogString(old(View()), c)
    {
      hide Rotated, OpenAt, Reopened, TextOf, FirstAbsent;
      ok := Refresh(c);
      if !ok { return; }
      if c.message != last && Wanted(c) {
        var line := Line(c.level, c.message, TextOf(c));
        if IsSevere(c.level) && err.Some? {
          errs.files := Appended(errs.files, err.value, line);
        }
        if log.Some? {
          logs.files := Appended(logs.files, log.value, line);
        }
        last := c.message;
        size := size + |line.text|;
      }
    }
  }
}
