/** The TinyDB wrapper: tables of JSON documents kept in insertion order,
    the queries run against a table, the timestamping of log entries and the
    entry-count rotation of a log database into numbered rotation files. */
module JsonDb {
  import opened PyText

  /** The JSON values a document field holds, as far as the queries tell
      them apart. Python compares a `bool` with a number as 0 or 1. */
  datatype Value = Num(n: int) | Flag(b: bool) | Text(s: string) | Null

  /** A TinyDB document. */
  type Entry = map<string, Value>

  /** A TinyDB table: its documents in insertion order. */
  type Table = seq<Entry>

  /** One TinyDB file: its tables by name. */
  type Tables = map<string, Table>

  /** The TinyDB files on disk, by path. */
  type Files = map<string, Tables>

  /** `ReadOnlyError`; the `TypeError` a timestamp comparison raises; the
      error opening the empty rotation path raises. */
  datatype DbError = ReadOnly | Incomparable | NoRotationFile

  const TS: string := "ts"

  // ---------------------------------------------------------------------
  // Values and queries

  /** The number a value compares as, if it is one. */
  function NumberOf(v: Value): (r: Option<int>)
    ensures r.Some? <==> (v.Num? || v.Flag?)
  {
    match v
    case Num(n) => Some(n)
    case Flag(b) => Some(if b then 1 else 0)
    case _ => None
  }

  /** Python's `==` on two values. */
  predicate PyEq(a: Value, b: Value) {
    if NumberOf(a).Some? && NumberOf(b).Some? then NumberOf(a) == NumberOf(b) else a == b
  }

  /** The TinyDB queries the database builds: `Query().fragment(f)`,
      `Query()[field].one_of(values)` and their negation with `~`. */
  datatype Cond = Fragment(fields: map<string, Value>) | OneOf(field: string, values: seq<Value>) | Not(c: Cond)

  /** Whether a document satisfies a query: a fragment needs every one of
      its keys with an equal value, `one_of` needs the field present with a
      value equal to one of the candidates. */
  predicate Holds(c: Cond, e: Entry) {
    match c
    case Fragment(f) => forall k :: k in f ==> k in e && PyEq(e[k], f[k])
    case OneOf(field, vs) => field in e && exists i :: 0 <= i < |vs| && PyEq(e[field], vs[i])
    case Not(c') => !Holds(c', e)
  }

  /** The elements of `t` that satisfy `p`, in order: the comprehension
      TinyDB's `search` runs over a table. */
  function Select<T(!new)>(t: seq<T>, p: T -> bool): (r: seq<T>)
    ensures |r| <= |t|
    ensures forall x :: x in r <==> x in t && p(x)
  {
    if t == [] then []
    else
      assert t == [t[0]] + t[1..];
      (if p(t[0]) then [t[0]] else []) + Select(t[1..], p)
  }

  /** Selection keeps order: a sequence split in two is selected from
      piece by piece. */
  lemma {:induction false} SelectAppend<T(!new)>(a: seq<T>, b: seq<T>, p: T -> bool)
    ensures Select(a + b, p) == Select(a, p) + Select(b, p)
    decreases |a|
  {
    if a == [] {
      assert a + b == b;
    } else {
      assert (a + b)[0] == a[0];
      assert (a + b)[1..] == a[1..] + b;
      SelectAppend(a[1..], b, p);
    }
  }

  /** A test and its negation split a sequence: every element lands in
      exactly one of the two selections. */
  lemma {:induction false} SelectPartition<T(!new)>(t: seq<T>, p: T -> bool, q: T -> bool)
    requires forall x :: q(x) == !p(x)
    ensures multiset(Select(t, p)) + multiset(Select(t, q)) == multiset(t)
    decreases |t|
  {
    if t != [] {
      SelectPartition(t[1..], p, q);
      assert t == [t[0]] + t[1..];
      var yes, no := Select(t[1..], p), Select(t[1..], q);
      if p(t[0]) {
        assert Select(t, p) == [t[0]] + yes && Select(t, q) == no;
        MultisetCons(t[0], yes, no, t[1..]);
      } else {
        assert Select(t, p) == yes && Select(t, q) == [t[0]] + no;
        MultisetCons(t[0], no, yes, t[1..]);
      }
    }
  }

  lemma MultisetCons<T>(x: T, a: seq<T>, b: seq<T>, rest: seq<T>)
    requires multiset(a) + multiset(b) == multiset(rest)
    ensures multiset([x] + a) + multiset(b) == multiset([x] + rest)
    ensures multiset(b) + multiset([x] + a) == multiset([x] + rest)
  {
  }

  /** `table.search(cond)`. */
  function Search(t: Table, c: Cond): Table {
    Select(t, e => Holds(c, e))
  }

  /** Searching keeps table order. */
  lemma SearchAppend(a: Table, b: Table, c: Cond)
    ensures Search(a + b, c) == Search(a, c) + Search(b, c)
  {
    SelectAppend(a, b, e => Holds(c, e));
  }

  /** A query and its negation split a table: every document lands in
      exactly one of the two results. */
  lemma SearchPartition(t: Table, c: Cond)
    ensures |Search(t, c)| + |Search(t, Not(c))| == |t|
    ensures multiset(Search(t, c)) + multiset(Search(t, Not(c))) == multiset(t)
  {
    SelectPartition(t, e => Holds(c, e), e => Holds(Not(c), e));
    assert |multiset(t)| == |t|;
  }

  /** The timestamp a document compares by: `None` when it has no `ts` at
      all, so the query does not match it. */
  function Timestamp(e: Entry): Option<int>
    requires TS in e ==> NumberOf(e[TS]).Some?
  {
    if TS in e then NumberOf(e[TS]) else None
  }

  /** A document whose `ts` is not a number makes `query.ts < t` raise. */
  predicate Comparable(e: Entry) {
    TS in e ==> NumberOf(e[TS]).Some?
  }

  /** The three timestamp queries of the log database. */
  datatype Window = After(t: int) | Before(t: int) | Between(lo: int, hi: int)

  predicate InWindow(w: Window, ts: int) {
    match w
    case After(t) => ts > t
    case Before(t) => ts < t
    case Between(lo, hi) => lo <= ts && ts <= hi
  }

  predicate InRange(w: Window, e: Entry) {
    Comparable(e) && Timestamp(e).Some? && InWindow(w, Timestamp(e).value)
  }

  predicate AllComparable(t: Table) {
    forall i :: 0 <= i < |t| ==> Comparable(t[i])
  }

  /** `table.search` with a timestamp query: the documents in the window,
      or `TypeError` when some `ts` is not a number, because TinyDB tests
      every document. */
  function SearchTs(t: Table, w: Window): Result<Table, DbError> {
    if AllComparable(t) then Ok(Select(t, e => InRange(w, e))) else Err(Incomparable)
  }

  /** Timestamp searches keep table order as well, and a single
      incomparable document anywhere makes the whole search raise. */
  lemma SearchTsAppend(a: Table, b: Table, w: Window)
    ensures SearchTs(a + b, w).Ok? <==> SearchTs(a, w).Ok? && SearchTs(b, w).Ok?
    ensures SearchTs(a + b, w).Ok? ==>
      SearchTs(a + b, w).value == SearchTs(a, w).value + SearchTs(b, w).value
  {
    SelectAppend(a, b, e => InRange(w, e));
    if AllComparable(a + b) {
      forall i | 0 <= i < |b| ensures Comparable(b[i]) {
        assert (a + b)[|a| + i] == b[i];
      }
      forall i | 0 <= i < |a| ensures Comparable(a[i]) {
        assert (a + b)[i] == a[i];
      }
    }
    if AllComparable(a) && AllComparable(b) {
      forall i | 0 <= i < |a + b| ensures Comparable((a + b)[i]) {
        if i < |a| {
          assert (a + b)[i] == a[i];
        } else {
          assert (a + b)[i] == b[i - |a|];
        }
      }
    }
  }

  /** The three windows split a timestamp line: before `t`, exactly `t`
      (`between(t, t)`), after `t`. */
  lemma WindowsSplit(ts: int, t: int)
    ensures InWindow(Before(t), ts) || InWindow(Between(t, t), ts) || InWindow(After(t), ts)
    ensures !(InWindow(Before(t), ts) && InWindow(After(t), ts))
    ensures InWindow(Between(t, t), ts) <==> ts == t
  {
  }

  // ---------------------------------------------------------------------
  // Timestamps

  /** `append`'s stamping: a `ts` is added only when the entry has none,
      and every other field is kept. */
  function Stamped(e: Entry, now: int): (r: Entry)
    ensures TS in r && r.Keys == e.Keys + {TS}
    ensures TS in e ==> r[TS] == e[TS]
    ensures TS !in e ==> r[TS] == Num(now)
    ensures forall k :: k in e ==> r[k] == e[k]
  {
    if TS in e then e else e[TS := Num(now)]
  }

  /** Stamping twice is stamping once: a `ts` is never overwritten. */
  lemma StampedIdempotent(e: Entry, a: int, b: int)
    ensures Stamped(Stamped(e, a), b) == Stamped(e, a)
  {
  }

  /** `append_multiple`'s stamping of each entry, with the clock reading
      taken for it. */
  function StampAll(es: Table, now: seq<int>): (r: Table)
    requires |now| == |es|
    ensures |r| == |es|
    ensures forall i :: 0 <= i < |es| ==> r[i] == Stamped(es[i], now[i])
  {
    seq(|es|, i requires 0 <= i < |es| => Stamped(es[i], now[i]))
  }

  predicate AllStamped(t: Table) {
    forall i :: 0 <= i < |t| ==> TS in t[i]
  }

  /** After any number of appends every stored entry has a `ts`. */
  lemma AppendKeepsStamped(t: Table, es: Table, now: seq<int>)
    requires AllStamped(t) && |now| == |es|
    ensures AllStamped(t + StampAll(es, now))
  {
    var s := StampAll(es, now);
    forall i | 0 <= i < |t + s|
      ensures TS in (t + s)[i]
    {
      if i >= |t| {
        assert (t + s)[i] == s[i - |t|];
      }
    }
  }

  // ---------------------------------------------------------------------
  // Files

  /** The table `name` of the file at `path`: empty when either is missing,
      as TinyDB creates both on first use. */
  function TableAt(files: Files, path: string, name: string): Table {
    if path in files && name in files[path] then files[path][name] else []
  }

  /** The files after table `name` of the file at `path` is rewritten to
      `t`: that table reads back as `t` and no other table changes. */
  function WithTable(files: Files, path: string, name: string, t: Table): (r: Files)
    ensures TableAt(r, path, name) == t
    ensures forall p, n :: (p != path || n != name) ==> TableAt(r, p, n) == TableAt(files, p, n)
  {
    var tables := if path in files then files[path] else map[];
    files[path := tables[name := t]]
  }

  /** Two states of the disk that hold the same tables: they differ at
      most in which empty tables or files exist, which no read can see. */
  ghost predicate Agree(f: Files, g: Files) {
    forall p, n :: TableAt(f, p, n) == TableAt(g, p, n)
  }

  /** Rewriting the same table of two agreeing disks keeps them agreeing. */
  lemma AgreeWithTable(f: Files, g: Files, path: string, name: string, t: Table)
    requires Agree(f, g)
    ensures Agree(WithTable(f, path, name, t), WithTable(g, path, name, t))
  {
    forall p, n ensures TableAt(WithTable(f, path, name, t), p, n) == TableAt(WithTable(g, path, name, t), p, n) {
      if p != path || n != name {
        assert TableAt(f, p, n) == TableAt(g, p, n);
      }
    }
  }

  /** A second rewrite of the same table wins over the first. */
  lemma WithTableTwice(files: Files, path: string, name: string, a: Table, b: Table)
    ensures WithTable(WithTable(files, path, name, a), path, name, b) == WithTable(files, path, name, b)
  {
    var tables := if path in files then files[path] else map[];
    assert tables[name := a][name := b] == tables[name := b];
  }

  // ---------------------------------------------------------------------
  // Rotation

  /** `f'{rotate_path}.{k}'`: the path of rotation slot `k`. */
  function SlotPath(base: string, k: nat): (p: string)
    ensures |p| > |base| + 1
  {
    base + "." + IntToString(k)
  }

  /** Different slots have different paths. */
  lemma SlotPathInjective(base: string, j: nat, k: nat)
    requires SlotPath(base, j) == SlotPath(base, k)
    ensures j == k
  {
    var n := |base| + 1;
    assert SlotPath(base, j)[n..] == IntToString(j);
    assert SlotPath(base, k)[n..] == IntToString(k);
    IntToStringInjective(j, k);
  }

  /** Whether slot `k` is the one to overwrite when all before it exist:
      it is missing, or older than the slot before it. The existing files
      and their modification times are `fs`. */
  predicate Stale(fs: map<string, int>, base: string, k: nat) {
    var curr := SlotPath(base, k);
    curr !in fs
    || (k > 0 && SlotPath(base, k - 1) in fs && fs[curr] < fs[SlotPath(base, k - 1)])
  }

  /** The first stale slot among `k..n-1`, or `n` when there is none. */
  function FirstStale(fs: map<string, int>, base: string, n: nat, k: nat): (j: nat)
    requires k <= n
    ensures k <= j <= n
    ensures j < n ==> Stale(fs, base, j)
    ensures forall i :: k <= i < j ==> !Stale(fs, base, i)
    decreases n - k
  {
    if k == n then n
    else if Stale(fs, base, k) then k
    else FirstStale(fs, base, n, k + 1)
  }

  /** The slot `next_rotation_file` picks out of `times` slots: the first
      stale one, or slot 0 when every slot exists in order. */
  function RotationIndex(fs: map<string, int>, base: string, times: nat): nat {
    var j := FirstStale(fs, base, times, 0);
    if j < times then j else 0
  }

  /** `next_rotation_file`: the empty string when there are no slots,
      otherwise the path of the slot to write. */
  function NextRotation(fs: map<string, int>, base: string, times: int): (r: string)
    ensures times > 0 ==> exists k :: 0 <= k < times && r == SlotPath(base, k)
  {
    if times <= 0 then "" else SlotPath(base, RotationIndex(fs, base, times))
  }

  /** The result is empty exactly when there are no slots, and otherwise
      one of the `times` slots: the first that is missing or older than its
      predecessor, or slot 0 when there is none. */
  lemma NextRotationChoice(fs: map<string, int>, base: string, times: int)
    ensures NextRotation(fs, base, times) == "" <==> times <= 0
    ensures times > 0 ==>
      var k := RotationIndex(fs, base, times);
      && 0 <= k < times
      && NextRotation(fs, base, times) == SlotPath(base, k)
      && (forall i :: 0 <= i < k ==> !Stale(fs, base, i))
      && (Stale(fs, base, k) || (k == 0 && forall i :: 0 <= i < times ==> !Stale(fs, base, i)))
  {
  }

  /** When every slot exists and none is older than the one before it,
      slot 0 is overwritten. */
  lemma AllFreshPicksFirst(fs: map<string, int>, base: string, times: int)
    requires times > 0
    requires forall i :: 0 <= i < times ==> SlotPath(base, i) in fs
    requires forall i :: 0 < i < times ==> fs[SlotPath(base, i - 1)] <= fs[SlotPath(base, i)]
    ensures NextRotation(fs, base, times) == SlotPath(base, 0)
  {
    forall i | 0 <= i < times
      ensures !Stale(fs, base, i)
    {
      if i > 0 {
        assert fs[SlotPath(base, i - 1)] <= fs[SlotPath(base, i)];
      }
    }
  }

  /** What `rotate_files` does in ENTRIES mode: the new files and whether
      it raised. */
  datatype Rotation = Rotation(files: Files, outcome: Outcome<DbError>)

  function Rotate(files: Files, path: string, name: string, after: int, times: int,
                  base: string, fs: map<string, int>): (r: Rotation)
    ensures r.outcome.Fail? <==> |TableAt(files, path, name)| >= after && times <= 0
    ensures r.outcome.Fail? ==> r.outcome.error == NoRotationFile
  {
    var current := TableAt(files, path, name);
    if |current| < after then Rotation(files, Pass)
    else
      var slot := NextRotation(fs, base, times);
      var truncated := WithTable(files, path, name, []);
      if slot == "" then Rotation(truncated, Fail(NoRotationFile))
      else Rotation(WithTable(truncated, slot, name, current), Pass)
  }

  /** Below the threshold nothing changes. At or above it the rotation slot
      holds exactly the previous entries, replacing what it held, the live
      table is empty (unless the slot is the live file itself) and no other
      table changes. Without slots the live table is emptied and the entries
      are lost. */
  lemma RotateContract(files: Files, path: string, name: string, after: int, times: int,
                       base: string, fs: map<string, int>)
    ensures var current := TableAt(files, path, name);
      |current| < after ==> Rotate(files, path, name, after, times, base, fs) == Rotation(files, Pass)
    ensures var current := TableAt(files, path, name);
      var slot := NextRotation(fs, base, times);
      var r := Rotate(files, path, name, after, times, base, fs);
      |current| >= after && times > 0 ==>
        && r.outcome == Pass
        && TableAt(r.files, slot, name) == current
        && (slot != path ==> TableAt(r.files, path, name) == [])
        && (forall p, n :: (p != slot || n != name) && (p != path || n != name) ==>
              TableAt(r.files, p, n) == TableAt(files, p, n))
    ensures var current := TableAt(files, path, name);
      var r := Rotate(files, path, name, after, times, base, fs);
      |current| >= after && times <= 0 ==>
        r == Rotation(WithTable(files, path, name, []), Fail(NoRotationFile))
  {
    NextRotationChoice(fs, base, times);
  }

  /** Rotation reads and writes whole tables, so disks that agree rotate
      alike. */
  lemma RotateAgree(f: Files, g: Files, path: string, name: string, after: int, times: int,
                    base: string, fs: map<string, int>)
    requires Agree(f, g)
    ensures Rotate(f, path, name, after, times, base, fs).outcome
      == Rotate(g, path, name, after, times, base, fs).outcome
    ensures Agree(Rotate(f, path, name, after, times, base, fs).files,
                  Rotate(g, path, name, after, times, base, fs).files)
  {
    assert TableAt(f, path, name) == TableAt(g, path, name);
    var current := TableAt(f, path, name);
    if |current| >= after {
      var slot := NextRotation(fs, base, times);
      AgreeWithTable(f, g, path, name, []);
      if slot != "" {
        AgreeWithTable(WithTable(f, path, name, []), WithTable(g, path, name, []), slot, name, current);
      }
    }
  }

  // ---------------------------------------------------------------------
  // The databases

  /** `BaseDB` together with `LogDB`, which adds only methods: the database
      at `path`, the current table and the read-only switch. */
  class LogDB {
    const path: string
    var table: string
    const readOnly: bool
    var files: Files

    constructor(path: string, table: string, readOnly: bool, files: Files)
      ensures this.path == path && this.table == table && this.readOnly == readOnly
      ensures this.files == files
    {
      this.path := path;
      this.table := table;
      this.readOnly := readOnly;
      this.files := files;
    }

    /** `get_all`: the current table in insertion order. */
    function GetAll(): (r: Table)
      reads this
      ensures path in files && table in files[path] ==> r == files[path][table]
      ensures !(path in files && table in files[path]) ==> r == []
    {
      TableAt(files, path, table)
    }

    /** `set_table` changes only the table name. */
    method SetTable(name: string)
      modifies this
      ensures table == name && files == old(files)
    {
      table := name;
    }

    method Insert(entry: Entry) returns (r: Outcome<DbError>)
      modifies this
      ensures table == old(table)
      ensures readOnly ==> r == Fail(ReadOnly) && files == old(files)
      ensures !readOnly ==> r == Pass && files == WithTable(old(files), path, table, old(GetAll()) + [entry])
      ensures !readOnly ==> GetAll() == old(GetAll()) + [entry]
    {
      if readOnly {
        return Fail(ReadOnly);
      }
      files := WithTable(files, path, table, GetAll() + [entry]);
      r := Pass;
    }

    method InsertMultiple(entries: Table) returns (r: Outcome<DbError>)
      modifies this
      ensures table == old(table)
      ensures readOnly ==> r == Fail(ReadOnly) && files == old(files)
      ensures !readOnly ==> r == Pass && Agree(files, WithTable(old(files), path, table, old(GetAll()) + entries))
      ensures !readOnly ==> GetAll() == old(GetAll()) + entries
    {
      if readOnly {
        return Fail(ReadOnly);
      }
      for i := 0 to |entries|
        invariant table == old(table)
        invariant Agree(files, WithTable(old(files), path, table, old(GetAll()) + entries[..i]))
      {
        ghost var before := WithTable(old(files), path, table, old(GetAll()) + entries[..i]);
        assert GetAll() == old(GetAll()) + entries[..i];
        assert entries[..i + 1] == entries[..i] + [entries[i]];
        AgreeWithTable(files, before, path, table, GetAll() + [entries[i]]);
        WithTableTwice(old(files), path, table, old(GetAll()) + entries[..i], GetAll() + [entries[i]]);
        files := WithTable(files, path, table, GetAll() + [entries[i]]);
      }
      assert entries[..|entries|] == entries;
      r := Pass;
    }

    /** `get_matches`: the entries holding every key/value of `fields`, or
      with `negate` every other entry. */
    function GetMatches(fields: map<string, Value>, negate: bool): (r: Table)
      reads this
      ensures |r| <= |GetAll()|
      ensures forall e :: e in r <==> e in GetAll() && (Holds(Fragment(fields), e) != negate)
    {
      Search(GetAll(), if negate then Not(Fragment(fields)) else Fragment(fields))
    }

    /** `get_field_in`: the entries whose `field` equals one of `values`,
      or with `negate` every other entry. */
    function GetFieldIn(field: string, values: seq<Value>, negate: bool): (r: Table)
      reads this
      ensures |r| <= |GetAll()|
      ensures forall e :: e in r <==> e in GetAll() && (Holds(OneOf(field, values), e) != negate)
    {
      Search(GetAll(), if negate then Not(OneOf(field, values)) else OneOf(field, values))
    }

    /** `append`: the entry, stamped with `now` if it has no `ts`, is
      inserted; the stamped entry is what the caller's dict becomes. */
    method Append(entry: Entry, now: int) returns (r: Outcome<DbError>, stamped: Entry)
      modifies this
      ensures table == old(table)
      ensures readOnly ==> r == Fail(ReadOnly) && files == old(files) && stamped == entry
      ensures !readOnly ==> r == Pass && stamped == Stamped(entry, now)
      ensures !readOnly ==> files == WithTable(old(files), path, table, old(GetAll()) + [stamped])
    {
      if readOnly {
        return Fail(ReadOnly), entry;
      }
      stamped := entry;
      if TS !in stamped {
        stamped := stamped[TS := Num(now)];
      }
      r := Insert(stamped);
    }

    /** `append_multiple`: each entry gets its own clock reading if it has
      no `ts`, then all are inserted in order. */
    method AppendMultiple(entries: Table, now: seq<int>) returns (r: Outcome<DbError>, stamped: Table)
      requires |now| == |entries|
      modifies this
      ensures table == old(table)
      ensures readOnly ==> r == Fail(ReadOnly) && files == old(files) && stamped == entries
      ensures !readOnly ==> r == Pass && stamped == StampAll(entries, now)
      ensures !readOnly ==> Agree(files, WithTable(old(files), path, table, old(GetAll()) + stamped))
    {
      if readOnly {
        return Fail(ReadOnly), entries;
      }
      stamped := [];
      for i := 0 to |entries|
        invariant |stamped| == i
        invariant forall j :: 0 <= j < i ==> stamped[j] == Stamped(entries[j], now[j])
      {
        var entry := entries[i];
        if TS !in entry {
          entry := entry[TS := Num(now[i])];
        }
        stamped := stamped + [entry];
      }
      r := InsertMultiple(stamped);
    }

    /** `get_after`: the entries with `ts` later than `t`, in table order. */
    function GetAfter(t: int): (r: Result<Table, DbError>)
      reads this
      ensures r.Err? <==> exists i :: 0 <= i < |GetAll()| && !Comparable(GetAll()[i])
      ensures r.Ok? ==> forall e :: e in r.value <==>
        e in GetAll() && TS in e && NumberOf(e[TS]).Some? && NumberOf(e[TS]).value > t
    {
      SearchTs(GetAll(), After(t))
    }

    /** `get_before`: the entries with `ts` earlier than `t`, in table order. */
    function GetBefore(t: int): (r: Result<Table, DbError>)
      reads this
      ensures r.Err? <==> exists i :: 0 <= i < |GetAll()| && !Comparable(GetAll()[i])
      ensures r.Ok? ==> forall e :: e in r.value <==>
        e in GetAll() && TS in e && NumberOf(e[TS]).Some? && NumberOf(e[TS]).value < t
    {
      SearchTs(GetAll(), Before(t))
    }

    /** `get_between`: the entries with `start <= ts <= end`, in table order. */
    function GetBetween(start: int, end: int): (r: Result<Table, DbError>)
      reads this
      ensures r.Err? <==> exists i :: 0 <= i < |GetAll()| && !Comparable(GetAll()[i])
      ensures r.Ok? ==> forall e :: e in r.value <==>
        e in GetAll() && TS in e && NumberOf(e[TS]).Some?
        && start <= NumberOf(e[TS]).value <= end
    {
      SearchTs(GetAll(), Between(start, end))
    }
  }

  /** `get_matches` with and without `negate` partition the table. */
  lemma MatchesPartition(db: LogDB, fields: map<string, Value>)
    ensures multiset(db.GetMatches(fields, false)) + multiset(db.GetMatches(fields, true))
      == multiset(db.GetAll())
  {
    SearchPartition(db.GetAll(), Fragment(fields));
  }

  /** `get_field_in` with and without `negate` partition the table. */
  lemma FieldInPartition(db: LogDB, field: string, values: seq<Value>)
    ensures multiset(db.GetFieldIn(field, values, false)) + multiset(db.GetFieldIn(field, values, true))
      == multiset(db.GetAll())
  {
    SearchPartition(db.GetAll(), OneOf(field, values));
  }

  /** A log database that moves its entries to a rotation file once the
      live table holds `rotate_after` entries, keeping `rotate_times`
      rotation files at `rotate_path.0`, `rotate_path.1`, ... */
  class RotatingLogDB {
    const log: LogDB
    const rotateAfter: int
    const rotateTimes: int
    const rotatePath: string

    constructor(path: string, table: string, readOnly: bool, rotateAfter: int, rotateTimes: int,
                rotatePath: string, files: Files)
      ensures fresh(log)
      ensures log.path == path && log.table == table && log.readOnly == readOnly && log.files == files
      ensures this.rotateAfter == rotateAfter && this.rotateTimes == rotateTimes
      ensures this.rotatePath == rotatePath
    {
      log := new LogDB(path, table, readOnly, files);
      this.rotateAfter := rotateAfter;
      this.rotateTimes := rotateTimes;
      this.rotatePath := rotatePath;
    }

    /** `next_rotation_file`, with the existing files and their
      modification times given as `fs`. */
    method NextRotationFile(fs: map<string, int>) returns (next: string)
      ensures next == NextRotation(fs, rotatePath, rotateTimes)
    {
      ghost var n: nat := if rotateTimes <= 0 then 0 else rotateTimes;
      ghost var f := FirstStale(fs, rotatePath, n, 0);
      next := "";
      var rotation := 0;
      while rotation < rotateTimes
        invariant if rotateTimes > 0 then 0 <= rotation <= rotateTimes else rotation == 0
        invariant next == (if f < rotation then SlotPath(rotatePath, f)
                           else if rotation == rotateTimes > 0 then SlotPath(rotatePath, 0)
                           else "")
        decreases rotateTimes - rotation
      {
        var curr := SlotPath(rotatePath, rotation);
        if next == "" && rotation > 0 {
          assert !Stale(fs, rotatePath, rotation - 1);
        }
        if next == "" && curr in fs {
          if rotation != 0 && fs[curr] < fs[SlotPath(rotatePath, rotation - 1)] {
            assert Stale(fs, rotatePath, rotation) && f == rotation;
            next := curr;
          } else if rotation == rotateTimes - 1 {
            assert !Stale(fs, rotatePath, rotation) && f == rotateTimes;
            next := SlotPath(rotatePath, 0);
          } else {
            assert !Stale(fs, rotatePath, rotation) && f > rotation;
          }
        } else if next == "" {
          assert Stale(fs, rotatePath, rotation) && f == rotation;
          next := curr;
        } else {
          assert f < rotation;
        }
        rotation := rotation + 1;
      }
      if rotateTimes > 0 {
        assert rotation == rotateTimes && n == rotateTimes;
        assert RotationIndex(fs, rotatePath, n) == if f < n then f else 0;
      }
    }

    /** `_created_rotated`: table `table` of the file at `p` is replaced by
      `entries`; opening the empty path fails. */
    method CreatedRotated(p: string, entries: Table) returns (r: Outcome<DbError>)
      modifies log
      ensures log.table == old(log.table)
      ensures p == "" ==> r == Fail(NoRotationFile) && log.files == old(log.files)
      ensures p != "" ==> r == Pass && log.files == WithTable(old(log.files), p, log.table, entries)
    {
      if p == "" {
        return Fail(NoRotationFile);
      }
      WithTableTwice(log.files, p, log.table, [], entries);
      log.files := WithTable(log.files, p, log.table, []);
      log.files := WithTable(log.files, p, log.table, entries);
      r := Pass;
    }

    /** `rotate_files` in ENTRIES mode. */
    method RotateFiles(fs: map<string, int>) returns (r: Outcome<DbError>)
      modifies log
      ensures log.table == old(log.table)
      ensures log.readOnly ==> r == Fail(ReadOnly) && log.files == old(log.files)
      ensures !log.readOnly ==> Rotation(log.files, r)
                                == Rotate(old(log.files), log.path, log.table, rotateAfter, rotateTimes, rotatePath, fs)
    {
      if log.readOnly {
        return Fail(ReadOnly);
      }
      var current := log.GetAll();
      if |current| >= rotateAfter {
        var rotationPath := NextRotationFile(fs);
        log.files := WithTable(log.files, log.path, log.table, []);
        r := CreatedRotated(rotationPath, current);
      } else {
        r := Pass;
      }
    }

    /** `append`, then `rotate_files`. */
    method Append(entry: Entry, now: int, fs: map<string, int>) returns (r: Outcome<DbError>, stamped: Entry)
      modifies log
      ensures log.table == old(log.table)
      ensures log.readOnly ==> r == Fail(ReadOnly) && log.files == old(log.files) && stamped == entry
      ensures !log.readOnly ==> (
        && stamped == Stamped(entry, now)
        && Rotation(log.files, r) ==
             Rotate(WithTable(old(log.files), log.path, log.table, old(log.GetAll()) + [stamped]),
                    log.path, log.table, rotateAfter, rotateTimes, rotatePath, fs))
    {
      r, stamped := log.Append(entry, now);
      if r.Fail? {
        return;
      }
      r := RotateFiles(fs);
    }

    /** `append_multiple`, then `rotate_files`. */
    method AppendMultiple(entries: Table, now: seq<int>, fs: map<string, int>)
      returns (r: Outcome<DbError>, stamped: Table)
      requires |now| == |entries|
      modifies log
      ensures log.table == old(log.table)
      ensures log.readOnly ==> r == Fail(ReadOnly) && log.files == old(log.files) && stamped == entries
      ensures !log.readOnly ==> (
        && stamped == StampAll(entries, now)
        && r == Rotate(WithTable(old(log.files), log.path, log.table, old(log.GetAll()) + stamped),
                       log.path, log.table, rotateAfter, rotateTimes, rotatePath, fs).outcome
        && Agree(log.files,
                 Rotate(WithTable(old(log.files), log.path, log.table, old(log.GetAll()) + stamped),
                        log.path, log.table, rotateAfter, rotateTimes, rotatePath, fs).files))
    {
      r, stamped := log.AppendMultiple(entries, now);
      if r.Fail? {
        return;
      }
      ghost var inserted := log.files;
      r := RotateFiles(fs);
      RotateAgree(inserted, WithTable(old(log.files), log.path, log.table, old(log.GetAll()) + stamped),
                  log.path, log.table, rotateAfter, rotateTimes, rotatePath, fs);
    }
  }
}
