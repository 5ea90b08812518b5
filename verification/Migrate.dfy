/** internal/migrate/migrate.go: migrations applied in name order, each in one
    transaction with the row that records it. */
module Migrate {
  import opened Base
  import opened Text

  datatype DirEntry = DirEntry(name: string, isDir: bool)

  /** `recorded` is schema_migrations, `data` everything else in the file. */
  datatype State<D> = State(recorded: set<string>, data: D)

  function FileNames(entries: seq<DirEntry>): (names: seq<string>)
    ensures forall n :: n in names <==> exists e :: e in entries && !e.isDir && e.name == n
  {
    if entries == [] then []
    else if entries[0].isDir then FileNames(entries[1..])
    else
      var rest := FileNames(entries[1..]);
      assert entries == [entries[0]] + entries[1..];
      [entries[0].name] + rest
  }

  // ----- Name order -----

  predicate StrictlySorted(s: seq<string>) {
    forall i, j :: 0 <= i < j < |s| ==> LexLess(s[i], s[j])
  }

  function Insert(x: string, s: seq<string>): seq<string> {
    if s == [] || !LexLess(s[0], x) then [x] + s else [s[0]] + Insert(x, s[1..])
  }

  /** sort.Strings. */
  function SortStrings(s: seq<string>): seq<string> {
    if s == [] then [] else Insert(s[0], SortStrings(s[1..]))
  }

  predicate Distinct(s: seq<string>) {
    forall i, j :: 0 <= i < j < |s| ==> s[i] != s[j]
  }

  lemma {:induction false} InsertSorts(x: string, s: seq<string>)
    requires StrictlySorted(s) && x !in s
    ensures StrictlySorted(Insert(x, s))
    ensures forall y :: y in Insert(x, s) <==> y == x || y in s
  {
    if s == [] {
    } else if !LexLess(s[0], x) {
      LexTrichotomy(s[0], x);
      forall j | 0 <= j < |s| ensures LexLess(x, s[j]) {
        if j > 0 {
          LexTransitive(x, s[0], s[j]);
        }
      }
    } else {
      InsertSorts(x, s[1..]);
      var rest := Insert(x, s[1..]);
      forall j | 0 <= j < |rest| ensures LexLess(s[0], rest[j]) {
        assert rest[j] in rest;
        if rest[j] != x {
          var k :| 0 <= k < |s[1..]| && s[1..][k] == rest[j];
          assert s[k + 1] == rest[j];
        }
      }
      assert s == [s[0]] + s[1..];
    }
  }

  /** Distinct names come out strictly in order, none lost and none added. */
  lemma {:induction false} SortSorts(s: seq<string>)
    requires Distinct(s)
    ensures StrictlySorted(SortStrings(s))
    ensures forall x :: x in SortStrings(s) <==> x in s
  {
    if s != [] {
      SortSorts(s[1..]);
      InsertSorts(s[0], SortStrings(s[1..]));
      assert s == [s[0]] + s[1..];
    }
  }

  /** A directory names each entry once. */
  predicate Directory(entries: seq<DirEntry>) {
    forall i, j :: 0 <= i < j < |entries| ==> entries[i].name != entries[j].name
  }

  lemma {:induction false} FileNamesDistinct(entries: seq<DirEntry>)
    requires Directory(entries)
    ensures Distinct(FileNames(entries))
  {
    if entries != [] {
      FileNamesDistinct(entries[1..]);
      var rest := FileNames(entries[1..]);
      forall j | 0 <= j < |rest| ensures rest[j] != entries[0].name {
        assert rest[j] in rest;
        var e :| e in entries[1..] && e.name == rest[j];
        var k :| 0 <= k < |entries[1..]| && entries[1..][k] == e;
        assert entries[k + 1] == e;
      }
    }
  }

  /** The names Apply goes through: every file of the directory, in name order. */
  lemma NamesInOrder(entries: seq<DirEntry>)
    requires Directory(entries)
    ensures
      var names := SortStrings(FileNames(entries));
      && StrictlySorted(names)
      && forall n :: n in names <==> exists e :: e in entries && !e.isDir && e.name == n
  {
    FileNamesDistinct(entries);
    SortSorts(FileNames(entries));
  }

  function NameSet(s: seq<string>): set<string> {
    set n | n in s
  }

  // ----- Apply -----

  /** One run over the names it gets through. */
  function Pass<D>(st: State<D>, names: seq<string>, run: (string, D) -> D): State<D> {
    if names == [] then st
    else
      var (before, name) := (Pass(st, names[..|names| - 1], run), names[|names| - 1]);
      if name in before.recorded then before else State(before.recorded + {name}, run(name, before.data))
  }

  function Reached(names: seq<string>, reached: nat): nat {
    if reached < |names| then reached else |names|
  }

  class Database<D> {
    var recorded: set<string>
    var data: D

    function Now(): State<D>
      reads this
    {
      State(recorded, data)
    }

    constructor (d: D)
      ensures Now() == State({}, d)
    {
      recorded, data := {}, d;
    }

    /** Runs every unrecorded migration in name order. `readable` is whether the table
        and the directory can be read at all, `reached` how many names the run gets
        through before something stops it - a query or a script that fails, an I/O
        error, the process dying - whether or not the next one was recorded. */
    method Apply(entries: seq<DirEntry>, run: (string, D) -> D, readable: bool, reached: nat) returns (ok: bool)
      modifies this
      ensures
        var names := SortStrings(FileNames(entries));
        && (ok <==> readable && reached >= |names|)
        && Now() == if readable then Pass(old(Now()), names[..Reached(names, reached)], run) else old(Now())
    {
      if !readable {
        return false;
      }
      var names := SortStrings(FileNames(entries));
      var i := 0;
      while i < |names|
        invariant 0 <= i <= |names| && i <= reached
        invariant Now() == Pass(old(Now()), names[..i], run)
      {
        if i == reached {
          return false;
        }
        var name := names[i];
        assert names[..i + 1][..i] == names[..i];
        if name !in recorded {
          recorded, data := recorded + {name}, run(name, data);
        }
        i := i + 1;
      }
      return true;
    }
  }

  // ----- Crash and restart -----

  function Fold<D>(names: seq<string>, run: (string, D) -> D, d: D): D {
    if names == [] then d else run(names[|names| - 1], Fold(names[..|names| - 1], run, d))
  }

  /** Exactly the first k migrations are recorded, and the data is what applying
      them once each, in order, makes of a fresh database. */
  ghost predicate AtPrefix<D(!new)>(st: State<D>, names: seq<string>, run: (string, D) -> D, d: D, k: nat) {
    k <= |names| && st == State(NameSet(names[..k]), Fold(names[..k], run, d))
  }

  lemma RecordedIff(names: seq<string>, i: nat, k: nat)
    requires StrictlySorted(names) && i < |names| && k <= |names|
    ensures names[i] in NameSet(names[..k]) <==> i < k
  {
    if names[i] in names[..k] {
      var j :| 0 <= j < k && names[j] == names[i];
      LexTrichotomy(names[i], names[i]);
    }
    if i < k {
      assert names[..k][i] == names[i];
    }
  }

  function Max(a: nat, b: nat): nat {
    if a < b then b else a
  }

  /** A run from a prefix extends it as far as it gets, and never takes it back. */
  lemma {:induction false} PassFrom<D(!new)>(st: State<D>, names: seq<string>, run: (string, D) -> D, d: D,
                                             k: nat, i: nat)
    requires StrictlySorted(names) && i <= |names| && AtPrefix(st, names, run, d, k)
    ensures AtPrefix(Pass(st, names[..i], run), names, run, d, Max(k, i))
  {
    if i > 0 {
      var j := i - 1;
      PassFrom(st, names, run, d, k, j);
      assert names[..i][..j] == names[..j];
      RecordedIff(names, j, Max(k, j));
      if k < i {
        assert names[..i] == names[..j] + [names[j]];
        assert NameSet(names[..i]) == NameSet(names[..j]) + {names[j]};
      }
    }
  }

  /** Any sequence of runs, each stopped where its entry says. */
  function Runs<D>(st: State<D>, names: seq<string>, run: (string, D) -> D, stops: seq<nat>): State<D> {
    if stops == [] then st
    else Pass(Runs(st, names, run, stops[..|stops| - 1]), names[..Reached(names, stops[|stops| - 1])], run)
  }

  /** How far the furthest of them got. */
  function Furthest(names: seq<string>, stops: seq<nat>): nat {
    if stops == [] then 0 else Max(Furthest(names, stops[..|stops| - 1]), Reached(names, stops[|stops| - 1]))
  }

  /** After any runs, however interrupted, the recorded migrations are a prefix in
      name order, as long as the furthest run got, and the data is that prefix
      applied once each. */
  lemma {:induction false} CrashSafe<D(!new)>(names: seq<string>, run: (string, D) -> D, d: D, stops: seq<nat>)
    requires StrictlySorted(names)
    ensures AtPrefix(Runs(State({}, d), names, run, stops), names, run, d, Furthest(names, stops))
  {
    if stops == [] {
      assert names[..0] == [];
    } else {
      var front, last := stops[..|stops| - 1], Reached(names, stops[|stops| - 1]);
      CrashSafe(names, run, d, front);
      PassFrom(Runs(State({}, d), names, run, front), names, run, d, Furthest(names, front), last);
    }
  }

  /** A run that completes leaves what one uninterrupted run on a fresh database
      leaves, whatever came before it; and running again, to any point, changes
      nothing. */
  lemma CompletedEqualsOneRun<D(!new)>(names: seq<string>, run: (string, D) -> D, d: D, stops: seq<nat>, again: nat)
    requires StrictlySorted(names)
    ensures
      var done := Pass(Runs(State({}, d), names, run, stops), names, run);
      && done == Pass(State({}, d), names, run)
      && Pass(done, names[..Reached(names, again)], run) == done
      && done == State(NameSet(names), Fold(names, run, d))
  {
    var k, n := Furthest(names, stops), |names|;
    assert names[..n] == names && names[..0] == [];
    CrashSafe(names, run, d, stops);
    var before := Runs(State({}, d), names, run, stops);
    PassFrom(before, names, run, d, k, n);
    PassFrom(State({}, d), names, run, d, 0, n);
    PassFrom(Pass(before, names, run), names, run, d, n, Reached(names, again));
  }
}
