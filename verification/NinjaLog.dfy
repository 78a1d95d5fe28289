/** Reading a ninja log: the steps of the last build, grouped by command hash. */
module NinjaLog {
  import opened Basics

  datatype Hash = Hash(text: string)

  /** Times in milliseconds; the restat field is ignored. */
  datatype Record = Record(start: int, end: int, name: string, hash: Hash)

  const HEADER := "# ninja log v5\n"

  /** A log line: something a killed ninja left behind, five fields with times that are no integers, or a record. */
  datatype Line = Corrupt | Unreadable | Logged(record: Record)

  /** Reading an integer, where the text is one. */
  type Parser = string -> Option<int>

  /** A line by its tab-separated fields: start, end, restat, name and hash. */
  function LineOf(fields: seq<string>, parse: Parser): Line {
    if |fields| != 5 then Corrupt
    else if parse(fields[0]) == None || parse(fields[1]) == None then Unreadable
    else Logged(Record(parse(fields[0]).value, parse(fields[1]).value, fields[3], Hash(fields[4])))
  }

  /** The fields that ninja writes for a record; `show` prints an integer. */
  ghost function Written(r: Record, restat: string, show: int -> string): seq<string> {
    [show(r.start), show(r.end), restat, r.name, r.hash.text]
  }

  /** What ninja writes is read back, and lines with other numbers of fields are corrupt. */
  lemma WrittenIsRead(r: Record, restat: string, show: int -> string, parse: Parser)
    requires parse(show(r.start)) == Some(r.start) && parse(show(r.end)) == Some(r.end)
    ensures LineOf(Written(r, restat, show), parse) == Logged(r)
  {
  }

  lemma CorruptIff(fields: seq<string>, parse: Parser)
    ensures LineOf(fields, parse) == Corrupt <==> |fields| != 5
    ensures LineOf(fields, parse) == Unreadable <==>
      |fields| == 5 && exists i :: 0 <= i < 2 && parse(fields[i]) == None
  {
    if |fields| == 5 {
      assert parse(fields[0]) == None ==> exists i :: 0 <= i < 2 && parse(fields[i]) == None;
      assert parse(fields[1]) == None ==> exists i :: 0 <= i < 2 && parse(fields[i]) == None;
    }
  }

  function LinesOf(log: seq<seq<string>>, parse: Parser): (lines: seq<Line>)
    ensures |lines| == |log| && forall i :: 0 <= i < |log| ==> lines[i] == LineOf(log[i], parse)
  {
    seq(|log|, i requires 0 <= i < |log| => LineOf(log[i], parse))
  }

  /** One build step with all its outputs. */
  datatype Step = Step(hash: Hash, start: int, end: int, targets: seq<string>)

  function Records(lines: seq<Line>): seq<Record> {
    if lines == [] then []
    else
      var rest, last := Records(lines[..|lines| - 1]), lines[|lines| - 1];
      if last.Logged? then rest + [last.record] else rest
  }

  // ----- What grouping means

  ghost predicate Mentions(records: seq<Record>, h: Hash) {
    exists i :: 0 <= i < |records| && records[i].hash == h
  }

  /** Where a hash is logged first. */
  ghost function FirstIndex(records: seq<Record>, h: Hash): (k: nat)
    requires Mentions(records, h)
    ensures k < |records| && records[k].hash == h
    ensures forall i :: 0 <= i < k ==> records[i].hash != h
  {
    if Mentions(records[..|records| - 1], h) then FirstIndex(records[..|records| - 1], h) else |records| - 1
  }

  /** The names logged under one hash, in log order. */
  ghost function NamesUnder(records: seq<Record>, h: Hash): seq<string> {
    if records == [] then []
    else
      var rest, last := NamesUnder(records[..|records| - 1], h), records[|records| - 1];
      if last.hash == h then rest + [last.name] else rest
  }

  /** A step carries the times of the first record under its hash and the names of all of them. */
  ghost predicate StepFor(records: seq<Record>, s: Step) {
    && Mentions(records, s.hash)
    && s.targets == NamesUnder(records, s.hash)
    && s.start == records[FirstIndex(records, s.hash)].start
    && s.end == records[FirstIndex(records, s.hash)].end
  }

  /** One step for every hash in the records, in order of first appearance. */
  ghost predicate Groups(records: seq<Record>, steps: seq<Step>) {
    && (forall i {:trigger StepFor(records, steps[i])} :: 0 <= i < |steps| ==> StepFor(records, steps[i]))
    && (forall k :: 0 <= k < |records| ==> HasStep(steps, records[k].hash))
    && (forall i, j :: 0 <= i < j < |steps| ==> EarlierStep(records, steps[i].hash, steps[j].hash))
  }

  ghost predicate HasStep(steps: seq<Step>, h: Hash) {
    exists i :: 0 <= i < |steps| && steps[i].hash == h
  }

  ghost predicate EarlierStep(records: seq<Record>, g: Hash, h: Hash) {
    Mentions(records, g) && Mentions(records, h) && FirstIndex(records, g) < FirstIndex(records, h)
  }

  lemma FirstIndexSnoc(records: seq<Record>, r: Record, h: Hash)
    requires Mentions(records, h)
    ensures Mentions(records + [r], h) && FirstIndex(records + [r], h) == FirstIndex(records, h)
  {
    assert (records + [r])[..|records|] == records;
    var i :| 0 <= i < |records| && records[i].hash == h;
    assert (records + [r])[i].hash == h;
  }

  lemma NewIndex(records: seq<Record>, r: Record)
    requires !Mentions(records, r.hash)
    ensures Mentions(records + [r], r.hash) && FirstIndex(records + [r], r.hash) == |records|
  {
    assert (records + [r])[..|records|] == records;
    assert (records + [r])[|records|].hash == r.hash;
  }

  lemma NamesSnoc(records: seq<Record>, r: Record, h: Hash)
    ensures NamesUnder(records + [r], h)
         == if r.hash == h then NamesUnder(records, h) + [r.name] else NamesUnder(records, h)
  {
    assert (records + [r])[..|records|] == records;
  }

  lemma {:induction false} NoNames(records: seq<Record>, h: Hash)
    requires !Mentions(records, h)
    ensures NamesUnder(records, h) == []
  {
    if records != [] {
      var rest := records[..|records| - 1];
      assert records[|records| - 1].hash != h;
      NoNames(rest, h);
    }
  }

  lemma OldStep(records: seq<Record>, r: Record, s: Step)
    requires StepFor(records, s)
    ensures StepFor(records + [r], if s.hash == r.hash then s.(targets := s.targets + [r.name]) else s)
  {
    FirstIndexSnoc(records, r, s.hash);
    NamesSnoc(records, r, s.hash);
  }

  lemma OldOrder(records: seq<Record>, r: Record, g: Hash, h: Hash)
    requires EarlierStep(records, g, h)
    ensures EarlierStep(records + [r], g, h)
  {
    FirstIndexSnoc(records, r, g);
    FirstIndexSnoc(records, r, h);
  }

  lemma HashesDiffer(records: seq<Record>, steps: seq<Step>, i: nat, k: nat)
    requires forall i, j :: 0 <= i < j < |steps| ==> EarlierStep(records, steps[i].hash, steps[j].hash)
    requires i < |steps| && k < |steps|
    ensures i != k ==> steps[i].hash != steps[k].hash
  {
    assert i != k ==> EarlierStep(records, steps[if i < k then i else k].hash, steps[if i < k then k else i].hash);
  }

  /** Appending the name to the step that is already there keeps the grouping. */
  lemma KnownHash(records: seq<Record>, steps: seq<Step>, r: Record, k: nat)
    requires Groups(records, steps) && k < |steps| && steps[k].hash == r.hash
    ensures Groups(records + [r], steps[k := steps[k].(targets := steps[k].targets + [r.name])])
  {
    var steps', records' := steps[k := steps[k].(targets := steps[k].targets + [r.name])], records + [r];
    forall i | 0 <= i < |steps'| ensures StepFor(records', steps'[i]) {
      assert StepFor(records, steps[i]) && StepFor(records, steps[k]);
      HashesDiffer(records, steps, i, k);
      OldStep(records, r, steps[i]);
    }
    forall i, j | 0 <= i < j < |steps'| ensures EarlierStep(records', steps'[i].hash, steps'[j].hash) {
      OldOrder(records, r, steps[i].hash, steps[j].hash);
    }
    forall m | 0 <= m < |records'| ensures HasStep(steps', records'[m].hash) {
      if m < |records| {
        assert HasStep(steps, records[m].hash);
        var i :| 0 <= i < |steps| && steps[i].hash == records[m].hash;
        assert steps'[i].hash == records'[m].hash;
      } else {
        assert steps'[k].hash == records'[m].hash;
      }
    }
  }

  /** A step of its own for a hash not seen before keeps the grouping. */
  lemma NewHash(records: seq<Record>, steps: seq<Step>, r: Record)
    requires Groups(records, steps) && !HasStep(steps, r.hash)
    ensures Groups(records + [r], steps + [Step(r.hash, r.start, r.end, [r.name])])
  {
    assert !Mentions(records, r.hash);
    NewHashSteps(records, steps, r);
    NewHashOrder(records, steps, r);
    NewHashSeen(records, steps, r);
  }

  lemma NewHashSteps(records: seq<Record>, steps: seq<Step>, r: Record)
    requires Groups(records, steps) && !Mentions(records, r.hash)
    ensures var steps' := steps + [Step(r.hash, r.start, r.end, [r.name])];
      forall i :: 0 <= i < |steps'| ==> StepFor(records + [r], steps'[i])
  {
    NewIndex(records, r);
    NoNames(records, r.hash);
    NamesSnoc(records, r, r.hash);
    forall i | 0 <= i < |steps| ensures StepFor(records + [r], steps[i]) {
      OldStep(records, r, steps[i]);
    }
  }

  lemma NewHashOrder(records: seq<Record>, steps: seq<Step>, r: Record)
    requires Groups(records, steps) && !Mentions(records, r.hash)
    ensures var steps' := steps + [Step(r.hash, r.start, r.end, [r.name])];
      forall i, j :: 0 <= i < j < |steps'| ==> EarlierStep(records + [r], steps'[i].hash, steps'[j].hash)
  {
    var steps' := steps + [Step(r.hash, r.start, r.end, [r.name])];
    NewIndex(records, r);
    forall i, j | 0 <= i < j < |steps'| ensures EarlierStep(records + [r], steps'[i].hash, steps'[j].hash) {
      if j < |steps| {
        OldOrder(records, r, steps[i].hash, steps[j].hash);
      } else {
        assert StepFor(records, steps[i]);
        FirstIndexSnoc(records, r, steps[i].hash);
      }
    }
  }

  lemma NewHashSeen(records: seq<Record>, steps: seq<Step>, r: Record)
    requires Groups(records, steps)
    ensures var steps' := steps + [Step(r.hash, r.start, r.end, [r.name])];
      forall m :: 0 <= m < |records + [r]| ==> HasStep(steps', (records + [r])[m].hash)
  {
    var steps', records' := steps + [Step(r.hash, r.start, r.end, [r.name])], records + [r];
    forall m | 0 <= m < |records'| ensures HasStep(steps', records'[m].hash) {
      if m < |records| {
        assert HasStep(steps, records[m].hash);
        var i :| 0 <= i < |steps| && steps[i].hash == records[m].hash;
        assert steps'[i].hash == records'[m].hash;
      } else {
        assert steps'[|steps|].hash == records'[m].hash;
      }
    }
  }

  // ----- Builds

  /** The record cannot belong to the build so far: it ends earlier, or repeats a command at other times. */
  ghost predicate Conflicts(build: seq<Record>, r: Record) {
    || (build != [] && r.end < build[|build| - 1].end)
    || exists i :: 0 <= i < |build| && build[i].hash == r.hash && (build[i].start != r.start || build[i].end != r.end)
  }

  /** A record joins the last build if it ends no earlier than the one before and repeats commands at equal times. */
  lemma JoinsBuildIff(records: seq<Record>, r: Record)
    ensures LastBuild(records + [r]) == LastBuild(records) + [r] <==>
      || LastBuild(records) == []
      || (&& r.end >= LastBuild(records)[|LastBuild(records)| - 1].end
          && forall i :: 0 <= i < |LastBuild(records)| && LastBuild(records)[i].hash == r.hash ==>
            LastBuild(records)[i].start == r.start && LastBuild(records)[i].end == r.end)
  {
    InitOfSnoc(records, r);
    if LastBuild(records) != [] { assert |[r]| != |LastBuild(records) + [r]|; }
  }

  /** The records of the last build: each conflict starts a new one. */
  ghost function LastBuild(records: seq<Record>): seq<Record> {
    if records == [] then []
    else
      var build, last := LastBuild(records[..|records| - 1]), records[|records| - 1];
      if Conflicts(build, last) then [last] else build + [last]
  }

  /** End times never decrease and a command has the same times throughout. */
  ghost predicate Consistent(build: seq<Record>) {
    && (forall i, j :: 0 <= i <= j < |build| ==> build[i].end <= build[j].end)
    && (forall i, j :: 0 <= i < |build| && 0 <= j < |build| && build[i].hash == build[j].hash ==>
          build[i].start == build[j].start && build[i].end == build[j].end)
  }

  lemma ConsistentSnoc(build: seq<Record>, r: Record)
    requires Consistent(build)
    ensures Consistent(build + [r]) <==> !Conflicts(build, r)
  {
    var build' := build + [r];
    if Conflicts(build, r) {
      assert build'[|build|] == r;
      if build != [] && r.end < build[|build| - 1].end {
        assert build'[|build| - 1].end > build'[|build|].end;
      } else {
        var i :| 0 <= i < |build| && build[i].hash == r.hash && (build[i].start != r.start || build[i].end != r.end);
        assert build'[i] == build[i];
      }
    }
  }

  lemma SingletonConsistent(r: Record)
    ensures Consistent([r])
  {
  }

  lemma {:induction false} LastBuildConsistent(records: seq<Record>)
    ensures Consistent(LastBuild(records)) && (LastBuild(records) == [] <==> records == [])
    ensures records != [] ==> LastBuild(records)[|LastBuild(records)| - 1] == records[|records| - 1]
  {
    if records != [] {
      var init, last := records[..|records| - 1], records[|records| - 1];
      LastBuildConsistent(init);
      ConsistentSnoc(LastBuild(init), last);
      SingletonConsistent(last);
    }
  }

  /**
   The last build is a suffix of the log, and it starts where the log starts or at a record that
   cannot belong to the build before it.
   */
  lemma {:induction false} LastBuildStartsAtConflict(records: seq<Record>) returns (before: seq<Record>)
    ensures records == before + LastBuild(records)
    ensures before != [] ==> LastBuild(records) != [] && Conflicts(LastBuild(before), LastBuild(records)[0])
  {
    before := [];
    if records != [] {
      var init, last := records[..|records| - 1], records[|records| - 1];
      if Conflicts(LastBuild(init), last) {
        before := init;
      } else {
        before := LastBuildStartsAtConflict(init);
        Regroup(records, before, LastBuild(init), last);
        LastBuildConsistent(init);
      }
    }
  }

  lemma Regroup(records: seq<Record>, before: seq<Record>, build: seq<Record>, last: Record)
    requires records != [] && records[..|records| - 1] == before + build && records[|records| - 1] == last
    ensures records == before + (build + [last])
  {
  }

  /** A reset on repeated hashes looks at one step only; the build is consistent, so that suffices. */
  lemma ConflictSeen(build: seq<Record>, steps: seq<Step>, r: Record, k: nat)
    requires Groups(build, steps) && Consistent(build) && k < |steps| && steps[k].hash == r.hash
    requires build == [] || build[|build| - 1].end <= r.end
    ensures Conflicts(build, r) <==> steps[k].start != r.start || steps[k].end != r.end
  {
    assert StepFor(build, steps[k]);
    var f := FirstIndex(build, r.hash);
    assert build[f].hash == r.hash;
  }

  lemma NoConflictWhenNew(build: seq<Record>, steps: seq<Step>, r: Record)
    requires Groups(build, steps) && !HasStep(steps, r.hash)
    requires build == [] || build[|build| - 1].end <= r.end
    ensures !Conflicts(build, r)
  {
    forall i | 0 <= i < |build| ensures build[i].hash != r.hash {
      assert HasStep(steps, build[i].hash);
    }
  }

  // ----- The reader

  method FindStep(steps: seq<Step>, h: Hash) returns (k: nat)
    ensures k < |steps| ==> steps[k].hash == h
    ensures k >= |steps| ==> !HasStep(steps, h)
  {
    k := 0;
    while k < |steps| && steps[k].hash != h
      invariant k <= |steps| && forall i :: 0 <= i < k ==> steps[i].hash != h
    {
      k := k + 1;
    }
  }

  /** The records that the result covers: all of them, or those of the last build. */
  ghost function Covered(records: seq<Record>, showAll: bool): seq<Record> {
    if showAll then records else LastBuild(records)
  }

  lemma CoveredStep(records: seq<Record>, r: Record, showAll: bool)
    ensures Covered(records + [r], showAll) ==
      if !showAll && Conflicts(LastBuild(records), r) then [r] else Covered(records, showAll) + [r]
  {
    assert (records + [r])[..|records|] == records;
  }

  /** Files a name under its hash, opening a step if there is none. */
  method FileName(steps: seq<Step>, r: Record, ghost build: seq<Record>) returns (steps': seq<Step>)
    requires Groups(build, steps)
    ensures Groups(build + [r], steps')
  {
    var k := FindStep(steps, r.hash);
    if k < |steps| {
      KnownHash(build, steps, r, k);
      steps' := steps[k := steps[k].(targets := steps[k].targets + [r.name])];
    } else {
      NewHash(build, steps, r);
      steps' := steps + [Step(r.hash, r.start, r.end, [r.name])];
    }
  }

  /** Whether the dictionary is reset before this record is filed, which happens iff it conflicts with the build. */
  method MustReset(steps: seq<Step>, lastEnd: int, r: Record, ghost build: seq<Record>) returns (reset: bool)
    requires Groups(build, steps) && Consistent(build)
    requires build != [] ==> lastEnd == build[|build| - 1].end
    requires build == [] ==> steps == []
    ensures build != [] ==> (reset <==> Conflicts(build, r))
  {
    if r.end < lastEnd {
      return true;
    }
    var k := FindStep(steps, r.hash);
    if k < |steps| {
      if build != [] { ConflictSeen(build, steps, r, k); }
      reset := steps[k].start != r.start || steps[k].end != r.end;
    } else {
      if build != [] { NoConflictWhenNew(build, steps, r); }
      reset := false;
    }
  }

  /** One well-formed line: throws the dictionary away if the record starts a new build, then files it. */
  method ReadRecord(steps: seq<Step>, lastEnd: int, r: Record, showAll: bool, ghost records: seq<Record>)
    returns (steps': seq<Step>)
    requires Groups(Covered(records, showAll), steps) && (records == [] ==> steps == [])
    requires records != [] ==> lastEnd == records[|records| - 1].end
    ensures Groups(Covered(records + [r], showAll), steps')
  {
    ghost var build := Covered(records, showAll);
    CoveredStep(records, r, showAll);
    steps' := steps;
    if !showAll {
      LastBuildConsistent(records);
      var reset := MustReset(steps', lastEnd, r, build);
      if reset {
        steps', build := [], [];
        assert [] + [r] == [r];
      }
    }
    steps' := FileName(steps', r, build);
  }

  lemma RecordsStep(lines: seq<Line>, i: nat)
    requires i < |lines|
    ensures Records(lines[..i + 1])
         == if lines[i].Logged? then Records(lines[..i]) + [lines[i].record] else Records(lines[..i])
  {
    assert lines[..i + 1][..i] == lines[..i];
  }

  /** The state of the reading loop after some records. */
  ghost predicate Reading(records: seq<Record>, showAll: bool, steps: seq<Step>, lastEnd: int) {
    && Groups(Covered(records, showAll), steps)
    && (records == [] ==> steps == [])
    && (records != [] ==> lastEnd == records[|records| - 1].end)
  }

  method ReadLine(line: Line, showAll: bool, steps: seq<Step>, lastEnd: int, ghost records: seq<Record>)
    returns (steps': seq<Step>, lastEnd': int)
    requires Reading(records, showAll, steps, lastEnd)
    ensures Reading(if line.Logged? then records + [line.record] else records, showAll, steps', lastEnd')
  {
    steps', lastEnd' := steps, lastEnd;
    if line.Logged? {
      steps' := ReadRecord(steps, lastEnd, line.record, showAll, records);
      lastEnd' := line.record.end;
    }
  }

  /** The state of the reading loop after `n` lines, all of them readable. */
  ghost predicate ReadSoFar(log: seq<seq<string>>, parse: Parser, showAll: bool, steps: seq<Step>, lastEnd: int, n: nat)
    requires n <= |log|
  {
    && Reading(Records(LinesOf(log, parse)[..n]), showAll, steps, lastEnd)
    && forall k :: 0 <= k < n ==> LineOf(log[k], parse) != Unreadable
  }

  /** One turn of the reading loop; `ok` is false for a time that is no integer. */
  method ReadNext(log: seq<seq<string>>, parse: Parser, showAll: bool, steps: seq<Step>, lastEnd: int, i: nat)
    returns (ok: bool, steps': seq<Step>, lastEnd': int)
    requires i < |log| && ReadSoFar(log, parse, showAll, steps, lastEnd, i)
    ensures ok <==> LineOf(log[i], parse) != Unreadable
    ensures ok ==> ReadSoFar(log, parse, showAll, steps', lastEnd', i + 1)
  {
    var line := LineOf(log[i], parse);
    if line == Unreadable {
      return false, steps, lastEnd;
    }
    RecordsStep(LinesOf(log, parse), i);
    steps', lastEnd' := ReadLine(line, showAll, steps, lastEnd, Records(LinesOf(log, parse)[..i]));
    ok := true;
  }

  datatype Result = Ok(steps: seq<Step>) | AssertionError | ValueError

  /**
   Reads the log. The steps group all well-formed records, or, without `showAll`, exactly those
   of the last build. A foreign header and a time that is no integer are errors.
   */
  method ReadTargets(header: string, log: seq<seq<string>>, parse: Parser, showAll: bool) returns (r: Result)
    ensures r.AssertionError? <==> header != "# ninja log v5\n"
    ensures r.ValueError? <==> header == HEADER && exists i :: 0 <= i < |log| && LineOf(log[i], parse) == Unreadable
    ensures r.Ok? && showAll ==> Groups(Records(LinesOf(log, parse)), r.steps)
    ensures r.Ok? && !showAll ==> Groups(LastBuild(Records(LinesOf(log, parse))), r.steps)
  {
    if header != HEADER {
      return AssertionError;
    }
    var steps: seq<Step>, lastEnd := [], 0;
    for i := 0 to |log|
      invariant ReadSoFar(log, parse, showAll, steps, lastEnd, i)
    {
      var ok;
      ok, steps, lastEnd := ReadNext(log, parse, showAll, steps, lastEnd, i);
      if !ok {
        return ValueError;
      }
    }
    assert LinesOf(log, parse)[..|log|] == LinesOf(log, parse);
    return Ok(steps);
  }

  // ----- Nothing lost, nothing repeated

  ghost function AllTargets(steps: seq<Step>): seq<string> {
    if steps == [] then [] else AllTargets(steps[..|steps| - 1]) + steps[|steps| - 1].targets
  }

  ghost function Names(records: seq<Record>): seq<string> {
    if records == [] then [] else Names(records[..|records| - 1]) + [records[|records| - 1].name]
  }

  /** How often a name is logged under one of the hashes of `steps`. */
  ghost function Filed(records: seq<Record>, steps: seq<Step>): multiset<string> {
    if records == [] then multiset{}
    else
      var init, last := records[..|records| - 1], records[|records| - 1];
      Filed(init, steps) + if HasStep(steps, last.hash) then multiset{last.name} else multiset{}
  }

  lemma {:induction false} FiledSnoc(records: seq<Record>, steps: seq<Step>, s: Step)
    requires !HasStep(steps, s.hash)
    ensures Filed(records, steps + [s]) == Filed(records, steps) + multiset(NamesUnder(records, s.hash))
  {
    if records != [] {
      var rest, last := records[..|records| - 1], records[|records| - 1];
      FiledSnoc(rest, steps, s);
      assert HasStep(steps + [s], last.hash) <==> HasStep(steps, last.hash) || last.hash == s.hash by {
        if last.hash == s.hash { assert (steps + [s])[|steps|].hash == last.hash; }
        if HasStep(steps, last.hash) {
          var i :| 0 <= i < |steps| && steps[i].hash == last.hash;
          assert (steps + [s])[i].hash == last.hash;
        }
      }
    }
  }

  lemma {:induction false} FiledNone(records: seq<Record>)
    ensures Filed(records, []) == multiset{}
  {
    if records != [] { FiledNone(records[..|records| - 1]); }
  }

  lemma {:induction false} FiledAll(records: seq<Record>, steps: seq<Step>)
    requires forall k :: 0 <= k < |records| ==> HasStep(steps, records[k].hash)
    ensures Filed(records, steps) == multiset(Names(records))
  {
    if records != [] { FiledAll(records[..|records| - 1], steps); }
  }

  lemma {:induction false} TargetsAreFiled(records: seq<Record>, steps: seq<Step>)
    requires forall i {:trigger StepFor(records, steps[i])} :: 0 <= i < |steps| ==> StepFor(records, steps[i])
    requires forall i, j :: 0 <= i < j < |steps| ==> EarlierStep(records, steps[i].hash, steps[j].hash)
    ensures multiset(AllTargets(steps)) == Filed(records, steps)
  {
    if steps == [] {
      FiledNone(records);
    } else {
      var init, last := steps[..|steps| - 1], steps[|steps| - 1];
      forall i | 0 <= i < |init| ensures StepFor(records, init[i]) { assert StepFor(records, steps[i]); }
      TargetsAreFiled(records, init);
      forall i | 0 <= i < |init| ensures init[i].hash != last.hash { HashesDiffer(records, steps, i, |steps| - 1); }
      InitAndLast(steps);
      assert StepFor(records, steps[|steps| - 1]);
      FiledSnoc(records, init, last);
    }
  }

  /** Grouping loses no output name and repeats none. */
  lemma NamesConserved(records: seq<Record>, steps: seq<Step>)
    requires Groups(records, steps)
    ensures multiset(AllTargets(steps)) == multiset(Names(records))
  {
    TargetsAreFiled(records, steps);
    FiledAll(records, steps);
  }
}
