/** The log tail: a reader that hands every complete line appended to a log
    file to a callback, and a state check that tells the daemon when the
    file at the watched path has been rotated away. The file is abstracted
    to what the path currently holds (its inode and text) and the text the
    open file object reads. */
module LogTail {
  import opened PyText

  /** The results of `state`. */
  const TAIL_ERROR: int := -1
  const TAIL_EXISTS: int := 0
  const TAIL_ROTATED: int := 1

  /** The inotify event masks the reader distinguishes (linux/inotify.h). */
  const IN_MODIFY: int := 0x2
  const IN_MOVE_SELF: int := 0x800

  /** What the watched path holds when it is opened or checked. */
  datatype PathState = Missing | Present(inode: int, content: string)

  // ---------------------------------------------------------------------
  // Lines

  /** The end of the line that starts at `at`: just past the next '\n', or
      the end of the text. */
  function LineEnd(content: string, at: nat): (e: nat)
    requires at <= |content|
    ensures at <= e <= |content|
    ensures at < |content| ==> at < e
    decreases |content| - at
  {
    if at == |content| then at
    else if content[at] == '\n' then at + 1
    else LineEnd(content, at + 1)
  }

  /** `readline()` on a text file at position `at`: up to and including the
      next '\n', or the rest of the file, or "" at (or past) the end. */
  function ReadLine(content: string, at: nat): string {
    if at >= |content| then [] else content[at..LineEnd(content, at)]
  }

  /** Whether a line read ends with '\n', i.e. has been written out. */
  predicate Ends(line: string) {
    line != [] && line[|line| - 1] == '\n'
  }

  /** The complete lines of the text from position `at` on, in order. */
  function LinesFrom(content: string, at: nat): seq<string>
    decreases |content| - at
  {
    if at >= |content| then []
    else
      var e := LineEnd(content, at);
      if content[e - 1] == '\n' then [content[at..e]] + LinesFrom(content, e) else []
  }

  function Concat(lines: seq<string>): string {
    if lines == [] then [] else lines[0] + Concat(lines[1..])
  }

  /** A complete line: it ends with its only '\n'. */
  predicate Complete(line: string) {
    Ends(line) && '\n' !in line[..|line| - 1]
  }

  // Small steps, each stated about a named line so that the proofs below
  // chain them without unfolding `LinesFrom` themselves.

  lemma ReadLineSlice(content: string, at: nat, line: string)
    requires line == ReadLine(content, at) && line != []
    ensures at < |content| && at + |line| == LineEnd(content, at) <= |content|
    ensures line == content[at..at + |line|]
  {
  }

  lemma LinesNext(content: string, at: nat, line: string)
    requires line == ReadLine(content, at) && Ends(line)
    ensures LinesFrom(content, at) == [line] + LinesFrom(content, at + |line|)
  {
  }

  lemma LinesStop(content: string, at: nat, line: string)
    requires line == ReadLine(content, at) && !Ends(line)
    ensures LinesFrom(content, at) == []
  {
  }

  lemma ConcatCons(line: string, lines: seq<string>)
    ensures Concat([line] + lines) == line + Concat(lines)
  {
    assert ([line] + lines)[0] == line && ([line] + lines)[1..] == lines;
  }

  lemma {:induction false} ConcatAppend(lines: seq<string>, line: string)
    ensures Concat(lines + [line]) == Concat(lines) + line
    decreases |lines|
  {
    if lines == [] {
      assert [] + [line] == [line];
      assert Concat([line][1..]) == [];
    } else {
      assert (lines + [line])[0] == lines[0];
      assert (lines + [line])[1..] == lines[1..] + [line];
      ConcatAppend(lines[1..], line);
    }
  }

  lemma Shift<T>(got: seq<T>, x: T, here: seq<T>, ahead: seq<T>, all: seq<T>)
    requires got + here == all && here == [x] + ahead
    ensures (got + [x]) + ahead == all
  {
    assert (got + [x]) + ahead == got + ([x] + ahead);
  }

  lemma SameCons<T>(x: T, a: seq<T>, b: seq<T>, xa: seq<T>, xb: seq<T>)
    requires xa == [x] + a && xb == [x] + b && a == b
    ensures xa == xb
  {
  }

  lemma Snoc<T>(a: seq<T>, b: seq<T>, x: T)
    ensures (a + b) + [x] == a + (b + [x])
  {
  }

  lemma Merge<T>(x: T, first: seq<T>, rest: seq<T>, later: seq<T>, whole: seq<T>, grown: seq<T>)
    requires whole == [x] + first && grown == [x] + rest && first + later == rest
    ensures whole + later == grown
  {
    assert whole + later == [x] + (first + later);
  }

  // ---------------------------------------------------------------------
  // What the lines are

  /** A line holds no '\n' before its last character, and that character
      is '\n' unless the line runs to the end of the text. */
  lemma {:induction false} LineShape(content: string, at: nat)
    requires at < |content|
    ensures '\n' !in content[at..LineEnd(content, at) - 1]
    ensures content[LineEnd(content, at) - 1] == '\n' || LineEnd(content, at) == |content|
    decreases |content| - at
  {
    if content[at] != '\n' && at + 1 < |content| {
      LineShape(content, at + 1);
      var e := LineEnd(content, at);
      assert content[at..e - 1] == [content[at]] + content[at + 1..e - 1];
    }
  }

  predicate AllComplete(lines: seq<string>) {
    forall i :: 0 <= i < |lines| ==> Complete(lines[i])
  }

  lemma AllCompleteCons(line: string, lines: seq<string>)
    requires Complete(line) && AllComplete(lines)
    ensures AllComplete([line] + lines)
  {
    assert forall i :: 0 < i < |[line] + lines| ==> ([line] + lines)[i] == lines[i - 1];
  }

  /** Every line handed on is complete. */
  lemma {:induction false} LinesComplete(content: string, at: nat)
    ensures AllComplete(LinesFrom(content, at))
    decreases |content| - at
  {
    var line := ReadLine(content, at);
    if Ends(line) {
      LinesComplete(content, at + |line|);
      LineComplete(content, at, line);
      LinesNext(content, at, line);
      AllCompleteCons(line, LinesFrom(content, at + |line|));
    } else {
      LinesStop(content, at, line);
    }
  }

  lemma LineComplete(content: string, at: nat, line: string)
    requires line == ReadLine(content, at) && Ends(line)
    ensures Complete(line)
  {
    ReadLineSlice(content, at, line);
    LineShape(content, at);
    assert line[..|line| - 1] == content[at..LineEnd(content, at) - 1];
  }

  /** The lines handed on are the text from `at` up to its last '\n'; what
      follows them has no '\n'. */
  predicate SplitsAt(content: string, at: nat, lines: seq<string>) {
    && at + |Concat(lines)| <= |content|
    && content[at..at + |Concat(lines)|] == Concat(lines)
    && '\n' !in content[at + |Concat(lines)|..]
  }

  lemma {:induction false} LinesSplit(content: string, at: nat)
    requires at <= |content|
    ensures SplitsAt(content, at, LinesFrom(content, at))
    decreases |content| - at
  {
    var line := ReadLine(content, at);
    if Ends(line) {
      ReadLineSlice(content, at, line);
      LinesSplit(content, at + |line|);
      LinesNext(content, at, line);
      SplitsCons(content, at, line, LinesFrom(content, at + |line|));
    } else {
      LinesStop(content, at, line);
      assert Concat([]) == [];
      if at < |content| {
        LineShape(content, at);
        var e := LineEnd(content, at);
        assert content[at..] == content[at..e - 1] + [content[e - 1]];
      }
    }
  }

  lemma SplitsCons(content: string, at: nat, line: string, lines: seq<string>)
    requires at + |line| <= |content| && line == content[at..at + |line|]
    requires SplitsAt(content, at + |line|, lines)
    ensures SplitsAt(content, at, [line] + lines)
  {
    ConcatCons(line, lines);
    var next := at + |line|;
    var rest := Concat(lines);
    assert content[at..next + |rest|] == content[at..next] + content[next..next + |rest|];
  }

  // ---------------------------------------------------------------------
  // Reading on

  /** A complete line stays the same when text is appended after it. */
  lemma {:induction false} LineEndExtend(content: string, more: string, at: nat)
    requires at < |content| && content[LineEnd(content, at) - 1] == '\n'
    ensures LineEnd(content + more, at) == LineEnd(content, at)
    decreases |content| - at
  {
    if content[at] != '\n' {
      LineEndExtend(content, more, at + 1);
    }
  }

  lemma ReadLineExtend(content: string, more: string, at: nat, line: string)
    requires line == ReadLine(content, at) && Ends(line)
    ensures line == ReadLine(content + more, at)
  {
    ReadLineSlice(content, at, line);
    LineEndExtend(content, more, at);
    assert (content + more)[at..LineEnd(content, at)] == content[at..LineEnd(content, at)];
  }

  /** Reading on from where a read stopped, after the file has grown,
      hands on exactly what one read of the grown file would have: no line
      is lost, repeated or split. */
  predicate Resumes(content: string, more: string, at: nat) {
    LinesFrom(content, at) + LinesFrom(content + more, at + |Concat(LinesFrom(content, at))|)
      == LinesFrom(content + more, at)
  }

  lemma LinesResume(content: string, more: string, at: nat)
    ensures Resumes(content, more, at)
  {
    ResumeAt(content, more, at, at + |Concat(LinesFrom(content, at))|);
  }

  lemma {:induction false} ResumeAt(content: string, more: string, at: nat, stop: nat)
    requires stop == at + |Concat(LinesFrom(content, at))|
    ensures LinesFrom(content, at) + LinesFrom(content + more, stop) == LinesFrom(content + more, at)
    decreases |content| - at
  {
    var line := ReadLine(content, at);
    if Ends(line) {
      var first := LinesFrom(content, at + |line|);
      var whole := LinesFrom(content, at);
      ReadLineSlice(content, at, line);
      ReadLineExtend(content, more, at, line);
      LinesNext(content, at, line);
      LinesNext(content + more, at, line);
      ConcatCons(line, first);
      ResumeAt(content, more, at + |line|, stop);
      Merge(line, first, LinesFrom(content + more, at + |line|), LinesFrom(content + more, stop),
        whole, LinesFrom(content + more, at));
    } else {
      LinesStop(content, at, line);
      assert Concat([]) == [];
      assert [] + LinesFrom(content + more, at) == LinesFrom(content + more, at);
    }
  }

  /** Shifting the text right by a prefix shifts every line end with it. */
  lemma {:induction false} LineEndShift(prefix: string, content: string, at: nat)
    requires at <= |content|
    ensures LineEnd(prefix + content, |prefix| + at) == |prefix| + LineEnd(content, at)
    decreases |content| - at
  {
    if at < |content| && content[at] != '\n' {
      LineEndShift(prefix, content, at + 1);
    }
  }

  lemma ReadLineShift(prefix: string, content: string, at: nat, shifted: nat, line: string)
    requires shifted == |prefix| + at && line == ReadLine(content, at)
    ensures line == ReadLine(prefix + content, shifted)
  {
    if at < |content| {
      LineEndShift(prefix, content, at);
      var e := LineEnd(content, at);
      assert (prefix + content)[shifted..|prefix| + e] == content[at..e];
    }
  }

  lemma {:induction false} LinesShift(prefix: string, content: string, at: nat, shifted: nat)
    requires shifted == |prefix| + at
    ensures LinesFrom(prefix + content, shifted) == LinesFrom(content, at)
    decreases |content| - at
  {
    var line := ReadLine(content, at);
    ReadLineShift(prefix, content, at, shifted, line);
    if Ends(line) {
      ReadLineSlice(content, at, line);
      LinesShift(prefix, content, at + |line|, shifted + |line|);
      LinesNext(content, at, line);
      LinesNext(prefix + content, shifted, line);
      SameCons(line, LinesFrom(prefix + content, shifted + |line|), LinesFrom(content, at + |line|),
        LinesFrom(prefix + content, shifted), LinesFrom(content, at));
    } else {
      LinesStop(content, at, line);
      LinesStop(prefix + content, shifted, line);
    }
  }

  /** A reader that starts at the end of the text sees only what is
      appended after it. */
  lemma FromEnd(seen: string, appended: string)
    ensures LinesFrom(seen + appended, |seen|) == LinesFrom(appended, 0)
  {
    LinesShift(seen, appended, 0, |seen|);
  }

  /** The lines handed on so far, `got`, followed by the complete lines
      from `at` on, are the complete lines from `start` on. */
  ghost predicate Tracks(content: string, start: nat, at: nat, got: seq<string>) {
    got + LinesFrom(content, at) == LinesFrom(content, start) && at == start + |Concat(got)|
  }

  lemma TracksStart(content: string, start: nat)
    ensures Tracks(content, start, start, [])
  {
    assert [] + LinesFrom(content, start) == LinesFrom(content, start);
  }

  /** One complete line read moves the reader past it and hands it on. */
  lemma LinesAdvance(content: string, start: nat, at: nat, got: seq<string>, line: string)
    requires line == ReadLine(content, at) && Ends(line)
    requires Tracks(content, start, at, got)
    ensures Tracks(content, start, at + |line|, got + [line])
  {
    LinesNext(content, at, line);
    Shift(got, line, LinesFrom(content, at), LinesFrom(content, at + |line|), LinesFrom(content, start));
    ConcatAppend(got, line);
  }

  lemma TracksEnd(content: string, start: nat, at: nat, got: seq<string>)
    requires Tracks(content, start, at, got) && LinesFrom(content, at) == []
    ensures got == LinesFrom(content, start) && at == start + |Concat(LinesFrom(content, start))|
  {
    assert got + [] == got;
  }

  // ---------------------------------------------------------------------
  // The tail

  class LogTail {
    const path: string
    /** How long the reader waits for a moved file to come back (seconds).
        Only that wait loop reads it, and the model leaves the loop out, so
        nothing here reads `timeout`. */
    const timeout: int
    /** Makes the next `state` report a rotation. */
    var force: bool
    /** Whether `self.file` has been opened. */
    var isOpen: bool
    /** The position of `self.file`. */
    var pos: nat
    /** `self.f_ino`: unset until a `stat` of the path succeeds. */
    var fIno: Option<int>
    /** The lines handed to `line_callback`, in order. */
    var received: seq<string>
    /** How many times `error_callback` has been called. */
    var errors: nat

    /** Opens the path and records its inode; with `full` the reader runs
        from the start of the file, otherwise the file is read from its end.
        A path that cannot be opened sets `force`. */
    constructor(path: string, full: bool, timeout: int, disk: PathState)
      ensures this.path == path && this.timeout == timeout && errors == 0
      ensures disk.Missing? ==> force && !isOpen && fIno.None? && received == []
      ensures disk.Present? ==> !force && isOpen && fIno == Some(disk.inode)
      ensures disk.Present? && full ==>
        received == LinesFrom(disk.content, 0) && pos == |Concat(LinesFrom(disk.content, 0))|
      ensures disk.Present? && !full ==> received == [] && pos == |disk.content|
    {
      this.path := path;
      this.timeout := timeout;
      force := false;
      isOpen := false;
      pos := 0;
      fIno := None;
      received := [];
      errors := 0;
      new;
      if disk.Missing? {
        force := true;
      } else {
        isOpen := true;
        fIno := Some(disk.inode);
        if full {
          pos := 0;
          Reader(IN_MODIFY, true, disk.content);
        } else {
          pos := |disk.content|;
        }
      }
    }

    /** `reset`: reopens the path from its start and records its inode; a
      path that cannot be opened sets `force` and keeps the old file. */
    method Reset(disk: PathState)
      modifies this
      ensures received == old(received) && errors == old(errors)
      ensures disk.Missing? ==>
        force && isOpen == old(isOpen) && pos == old(pos) && fIno == old(fIno)
      ensures disk.Present? ==>
        force == old(force) && isOpen && pos == 0 && fIno == Some(disk.inode)
    {
      if disk.Missing? {
        force := true;
      } else {
        isOpen := true;
        pos := 0;
        fIno := Some(disk.inode);
      }
    }

    /** `state`, given the inode a `stat` of the path returns now (`None`
      when it fails). A pending `force` wins once and is cleared. */
    method State(stat: Option<int>) returns (r: int)
      modifies this
      ensures isOpen == old(isOpen) && pos == old(pos) && fIno == old(fIno)
      ensures received == old(received) && errors == old(errors)
      ensures !force
      ensures old(force) ==> r == TAIL_ROTATED
      ensures !old(force) ==>
        && (r == TAIL_ERROR <==> stat.None? || fIno.None?)
        && (r == TAIL_EXISTS <==> stat.Some? && fIno == stat)
        && (r == TAIL_ROTATED <==> stat.Some? && fIno.Some? && fIno != stat)
    {
      if force {
        force := false;
        return TAIL_ROTATED;
      }
      if stat.None? || fIno.None? {
        return TAIL_ERROR;
      }
      if fIno == stat {
        return TAIL_EXISTS;
      }
      r := TAIL_ROTATED;
    }

    /** `reader`, called for an inotify event `mask`, with `present` telling
      whether the path exists and `content` the text the open file reads.
      Every complete line from the current position is handed on in order,
      and the position ends at the start of a trailing partial line. */
    method Reader(mask: int, present: bool, content: string)
      modifies this
      ensures force == old(force) && isOpen == old(isOpen) && fIno == old(fIno)
      ensures mask == IN_MOVE_SELF || !present ==>
        pos == old(pos) && received == old(received) && errors == old(errors)
      ensures mask != IN_MOVE_SELF && present && !isOpen ==>
        pos == old(pos) && received == old(received) && errors == old(errors) + 1
      ensures mask != IN_MOVE_SELF && present && isOpen ==>
        && errors == old(errors)
        && received == old(received) + LinesFrom(content, old(pos))
        && pos == old(pos) + |Concat(LinesFrom(content, old(pos)))|
    {
      if mask == IN_MOVE_SELF || !present {
        return;
      }
      if !isOpen {
        errors := errors + 1;
        return;
      }
      // the file position and the callback's record, held in locals while
      // the loop runs
      var cursor: nat := pos;
      var delivered := received;
      ghost var start: nat := pos;
      ghost var at: nat := pos;
      ghost var got: seq<string> := [];
      var line := ReadLine(content, cursor);
      cursor := cursor + |line|;
      if line == "" {
        LinesStop(content, at, line);
      } else {
        ReadLineSlice(content, at, line);
      }
      TracksStart(content, start);
      while line != ""
        invariant unchanged(this)
        invariant cursor == at + |line|
        invariant line != "" ==> line == ReadLine(content, at) && at + |line| <= |content|
        invariant line == "" ==> LinesFrom(content, at) == []
        invariant delivered == old(received) + got
        invariant Tracks(content, start, at, got)
        decreases if line == "" then 0 else |content| - at + 1
      {
        if line[|line| - 1] != '\n' {
          // a line still being written: seek back to its start
          var currPos := cursor;
          var offset := |line|;
          cursor := currPos - offset;
          LinesStop(content, at, line);
          line := "";
        } else {
          Snoc(old(received), got, line);
          delivered := delivered + [line];
          LinesAdvance(content, start, at, got, line);
          got := got + [line];
          at := at + |line|;
          assert Tracks(content, start, at, got);
          assert cursor == at;
          line := ReadLine(content, cursor);
          cursor := cursor + |line|;
          if line == "" {
            LinesStop(content, at, line);
          } else {
            ReadLineSlice(content, at, line);
          }
        }
      }
      TracksEnd(content, start, at, got);
      pos := cursor;
      received := delivered;
    }
  }
}
