/**
 * `Generator.splitScenarios`: turns the text of a feature file into an ordered map
 * from each `Scenario:` header line to an ordered map from step line to the table
 * rows written under that step.
 *
 * The lines are first cleaned up (a pure pipeline), then scanned left to right
 * carrying one variable, `currentStep`. The scan is specified one line at a time
 * by `Consume`, and `SplitScenarios` is the loop itself, proved to compute `Split`.
 */
module Generator {
  import opened Wrappers
  import opened Text
  import opened Seqs
  import opened OrderedMaps

  type Table = seq<string>
  type StepMap = OrderedMap<string, Table>
  type ScenarioMap = OrderedMap<string, StepMap>

  /** What the scan carries from one line to the next. */
  datatype ScanState = ScanState(scenarios: ScenarioMap, currentStep: Option<string>)

  const Initial := ScanState([], None)

  /** `startsWith("Scenario:")` */
  predicate IsHeader(line: string)
    ensures IsHeader(line) <==> |line| >= 9 && line[..9] == "Scenario:"
  {
    StartsWith(line, "Scenario:")
  }

  /** `startsWith("|")`: a data table row. */
  predicate IsRow(line: string)
    ensures IsRow(line) <==> line != [] && line[0] == '|'
  {
    assert line != [] ==> line[..1] == [line[0]];
    StartsWith(line, "|")
  }

  /** The `|` branch is only reached by lines the `Scenario:` branch did not take, and no `|` line would be taken there. */
  lemma RowIsNotHeader(line: string)
    requires IsRow(line)
    ensures !IsHeader(line)
  {
    assert line[0] == line[..1][0];
    if |line| >= 9 {
      assert line[0] == line[..9][0];
    }
  }

  /** A line the scan takes for a step: one that no earlier branch of the `when` catches. */
  predicate IsStepLine(line: string) {
    !IsHeader(line) && !IsRow(line) && !IsBlank(line)
  }

  predicate MentionsFeature(line: string) {
    Contains(Lowercase(line), "feature")
  }

  /** What every line that reaches the scan looks like. */
  predicate Clean(line: string) {
    !IsBlank(line) && !IsWhitespace(line[0]) && !MentionsFeature(line)
  }

  // ---------------------------------------------------------------------------
  // Preprocessing: lines(), filter isNotBlank, filterNot "feature", trimStart
  // ---------------------------------------------------------------------------

  lemma TrimmedClean(line: string)
    requires !IsBlank(line) && !MentionsFeature(line)
    ensures Clean(TrimStart(line))
  {
    var r := TrimStart(line);
    TrimStartNotBlank(line);
    if MentionsFeature(r) {
      var k := |line| - |r|;
      LowercaseSuffix(line, k);
      ContainsFromSuffix(Lowercase(line), k, "feature");
    }
  }

  /** A spelling of "feature" in any letter case anywhere in a line gets it dropped. */
  lemma MentionsFeatureAnyCase(line: string, k: nat)
    requires k + 7 <= |line| && Lowercase(line[k..k + 7]) == "feature"
    ensures MentionsFeature(line)
  {
    assert Lowercase(line)[k..k + 7] == Lowercase(line[k..k + 7]);
    ContainsAt(Lowercase(line), "feature", k);
  }

  /** `map { it.trimStart() }` */
  function TrimAll(ls: seq<string>): (r: seq<string>)
    ensures |r| == |ls| && forall i :: 0 <= i < |ls| ==> r[i] == TrimStart(ls[i])
    ensures forall x :: x in ls ==> TrimStart(x) in r
    ensures forall y :: y in r ==> exists x :: x in ls && y == TrimStart(x)
  {
    var r := seq(|ls|, i requires 0 <= i < |ls| => TrimStart(ls[i]));
    assert forall i :: 0 <= i < |ls| ==> r[i] == TrimStart(ls[i]) && ls[i] in ls;
    r
  }

  /** The lines the scan sees: the source's filter / filterNot / map chain. Every
      line that reaches the scan is clean and is a kept input line, left-trimmed;
      every input line that is not blank and does not mention "feature" reaches it. */
  function Preprocess(contents: string): (lines: seq<string>)
    ensures forall i :: 0 <= i < |lines| ==> Clean(lines[i])
    ensures forall x :: x in Lines(contents) && !IsBlank(x) && !MentionsFeature(x) ==> TrimStart(x) in lines
    ensures forall y :: y in lines ==>
      exists x :: x in Lines(contents) && !IsBlank(x) && !MentionsFeature(x) && y == TrimStart(x)
  {
    var kept := Filter(Filter(Lines(contents), (l: string) => !IsBlank(l)), (l: string) => !MentionsFeature(l));
    TrimmedKeptLines(contents, kept);
    TrimAll(kept)
  }

  lemma TrimmedKeptLines(contents: string, kept: seq<string>)
    requires kept == Filter(Filter(Lines(contents), (l: string) => !IsBlank(l)), (l: string) => !MentionsFeature(l))
    ensures var lines := TrimAll(kept);
      (forall i :: 0 <= i < |lines| ==> Clean(lines[i]))
      && (forall x :: x in Lines(contents) && !IsBlank(x) && !MentionsFeature(x) ==> TrimStart(x) in lines)
      && (forall y :: y in lines ==>
            exists x :: x in Lines(contents) && !IsBlank(x) && !MentionsFeature(x) && y == TrimStart(x))
  {
    KeptLines(contents, kept);
    var lines := TrimAll(kept);
    forall i | 0 <= i < |lines| ensures Clean(lines[i]) {
      assert kept[i] in kept;
      TrimmedClean(kept[i]);
    }
  }

  /** The two filters keep exactly the lines that are not blank and do not mention "feature". */
  lemma KeptLines(contents: string, kept: seq<string>)
    requires kept == Filter(Filter(Lines(contents), (l: string) => !IsBlank(l)), (l: string) => !MentionsFeature(l))
    ensures forall x :: x in kept <==> x in Lines(contents) && !IsBlank(x) && !MentionsFeature(x)
  {
  }

  // ---------------------------------------------------------------------------
  // The scan
  // ---------------------------------------------------------------------------

  /** `scenarioMap.values.lastOrNull()?.get(step)?.add(row)` */
  function AppendRow(m: ScenarioMap, step: string, row: string): (r: ScenarioMap)
    ensures Keys(r) == Keys(m)
    ensures m != [] ==> r[..|m| - 1] == m[..|m| - 1]
  {
    match LastValue(m)
    case None => m
    case Some(steps) =>
      match Get(steps, step)
      case None => m
      case Some(rows) => UpdateLast(m, Put(steps, step, rows + [row]))
  }

  /** `scenarioMap.values.lastOrNull()?.set(step, mutableListOf())`: in the last-inserted
      scenario a new step goes last and a present one keeps its place; either way its table is empty. */
  function OpenStep(m: ScenarioMap, step: string): (r: ScenarioMap)
    ensures Keys(r) == Keys(m)
    ensures m != [] ==> r[..|m| - 1] == m[..|m| - 1]
    ensures m == [] ==> r == []
    ensures m != [] ==>
      var steps, steps' := LastValue(m).value, LastValue(r).value;
      Keys(steps') == (if step in Keys(steps) then Keys(steps) else Keys(steps) + [step])
      && Get(steps', step) == Some([])
      && forall k :: k != step ==> Get(steps', k) == Get(steps, k)
  {
    match LastValue(m)
    case None => m
    case Some(steps) => UpdateLast(m, Put(steps, step, []))
  }

  /** One pass of the `forEach` body, branch by branch in the order of the `when`. */
  function Consume(st: ScanState, line: string): ScanState {
    if IsHeader(line) then
      ScanState(Put(st.scenarios, line, []), None)
    else if IsRow(line) then
      if st.currentStep.Some? then ScanState(AppendRow(st.scenarios, st.currentStep.value, line), st.currentStep)
      else st
    else if IsBlank(line) then
      ScanState(st.scenarios, None)
    else
      ScanState(OpenStep(st.scenarios, line), Some(line))
  }

  /** The state after consuming `ls` from `st`, left to right. */
  function ScanFrom(st: ScanState, ls: seq<string>): ScanState
    decreases |ls|
  {
    if ls == [] then st else Consume(ScanFrom(st, ls[..|ls| - 1]), ls[|ls| - 1])
  }

  function Scan(ls: seq<string>): ScanState {
    ScanFrom(Initial, ls)
  }

  /** What `splitScenarios` returns. */
  function Split(contents: string): ScenarioMap {
    Scan(Preprocess(contents)).scenarios
  }

  /** The loop of `splitScenarios`, over the preprocessed lines. */
  method SplitScenarios(scenarioFileContents: string) returns (scenarioMap: ScenarioMap)
    ensures scenarioMap == Split(scenarioFileContents)
    ensures Keys(scenarioMap) == Dedup(Filter(Preprocess(scenarioFileContents), IsHeader))
    ensures Shaped(scenarioMap)
    ensures AllClean(scenarioMap)
  {
    var scenarioFileLines := Preprocess(scenarioFileContents);
    scenarioMap := [];
    var currentStep: Option<string> := None;
    var i := 0;
    while i < |scenarioFileLines|
      invariant 0 <= i <= |scenarioFileLines|
      invariant ScanState(scenarioMap, currentStep) == Scan(scenarioFileLines[..i])
    {
      var line := scenarioFileLines[i];
      ScanPrefix(scenarioFileLines, i);
      ghost var before := ScanState(scenarioMap, currentStep);
      if IsHeader(line) {
        scenarioMap := Put(scenarioMap, line, []);
        currentStep := None;
      } else if IsRow(line) {
        if currentStep.Some? {
          scenarioMap := AppendRow(scenarioMap, currentStep.value, line);
        }
      } else if IsBlank(line) {
        currentStep := None;
      } else {
        currentStep := Some(line);
        scenarioMap := OpenStep(scenarioMap, line);
      }
      assert ScanState(scenarioMap, currentStep) == Consume(before, line);
      i := i + 1;
    }
    assert scenarioFileLines[..i] == scenarioFileLines;
    ScanHeaders(scenarioFileLines);
    ScanShaped(scenarioFileLines);
    SplitClean(scenarioFileContents);
  }

  // ---------------------------------------------------------------------------
  // Properties of the scan
  // ---------------------------------------------------------------------------

  lemma {:induction false} ScanFromAppend(st: ScanState, a: seq<string>, b: seq<string>)
    ensures ScanFrom(st, a + b) == ScanFrom(ScanFrom(st, a), b)
    decreases |b|
  {
    if b == [] {
      assert a + b == a;
    } else {
      var b' := b[..|b| - 1];
      assert (a + b)[..|a + b| - 1] == a + b';
      ScanFromAppend(st, a, b');
    }
  }

  /** The scenario keys are the distinct header lines, in order of first appearance:
      a repeated header keeps the place of its first occurrence. */
  lemma {:induction false} ScanHeaders(ls: seq<string>)
    ensures Keys(Scan(ls).scenarios) == Dedup(Filter(ls, IsHeader))
    decreases |ls|
  {
    if ls != [] {
      var init, line := ls[..|ls| - 1], ls[|ls| - 1];
      assert ls == init + [line];
      ScanHeaders(init);
      FilterAppend(init, [line], IsHeader);
      if IsHeader(line) {
        assert Filter([line], IsHeader) == [line];
        var f := Filter(ls, IsHeader);
        assert f[..|f| - 1] == Filter(init, IsHeader);
      } else {
        assert Filter([line], IsHeader) == [];
        assert Filter(ls, IsHeader) == Filter(init, IsHeader);
      }
    }
  }

  predicate TableShaped(rows: Table) {
    forall row | row in rows :: IsRow(row)
  }

  predicate StepsShaped(steps: StepMap) {
    DistinctKeys(steps) && forall e | e in steps :: IsStepLine(e.0) && TableShaped(e.1)
  }

  /** Keys are unique at both levels, scenario keys are header lines, step keys are
      step lines and every table row is a `|` line. */
  predicate Shaped(m: ScenarioMap) {
    DistinctKeys(m) && forall e | e in m :: IsHeader(e.0) && StepsShaped(e.1)
  }

  lemma ConsumeShaped(st: ScanState, line: string)
    requires Shaped(st.scenarios)
    ensures Shaped(Consume(st, line).scenarios)
  {
    var m := st.scenarios;
    if IsHeader(line) {
    } else if IsRow(line) {
      if st.currentStep.Some? && m != [] {
        var c := st.currentStep.value;
        var steps := m[|m| - 1].1;
        assert m[|m| - 1] in m;
        if Get(steps, c).Some? {
          var rows := Get(steps, c).value;
          assert (c, rows) in steps;
          assert TableShaped(rows + [line]);
          assert StepsShaped(Put(steps, c, rows + [line]));
        }
      }
    } else if !IsBlank(line) && m != [] {
      var steps := m[|m| - 1].1;
      assert m[|m| - 1] in m;
      assert StepsShaped(Put(steps, line, []));
    }
  }

  /** Every result of the scan is `Shaped`. */
  lemma {:induction false} ScanShaped(ls: seq<string>)
    ensures Shaped(Scan(ls).scenarios)
    decreases |ls|
  {
    if ls != [] {
      ScanShaped(ls[..|ls| - 1]);
      ConsumeShaped(Scan(ls[..|ls| - 1]), ls[|ls| - 1]);
    }
  }

  /** A scenario entry whose key and step keys were read from `ls` and whose tables are runs of consecutive lines of `ls`. */
  ghost predicate EntryTraced(e: (string, StepMap), ls: seq<string>) {
    e.0 in ls && forall s | s in e.1 :: s.0 in ls && IsInfix(s.1, ls)
  }

  /**
   * How the state relates to the lines `ls` read so far: every entry is traced to
   * `ls`, and when a step is current in a non-empty map it is a key of the
   * last-inserted scenario and the lines read end with that step line followed by
   * its table: the table is exactly the lines read since the step line.
   */
  ghost predicate Traced(st: ScanState, ls: seq<string>) {
    (forall e | e in st.scenarios :: EntryTraced(e, ls))
    && (st.currentStep.Some? && st.scenarios != [] ==>
          var steps := LastValue(st.scenarios).value;
          Get(steps, st.currentStep.value).Some?
          && IsSuffix([st.currentStep.value] + Get(steps, st.currentStep.value).value, ls))
  }

  /** Entries already traced to `ls` stay traced when one more line is read. */
  lemma TracedEntryExtend(e: (string, StepMap), ls: seq<string>, line: string)
    requires EntryTraced(e, ls)
    ensures EntryTraced(e, ls + [line])
  {
    forall s | s in e.1 ensures s.0 in ls + [line] && IsInfix(s.1, ls + [line]) {
      InfixExtend(s.1, ls, line);
    }
  }

  /** Replacing the last scenario's steps by `steps'` keeps the map traced when `steps'` is. */
  lemma UpdateLastTraced(m: ScenarioMap, steps': StepMap, ls: seq<string>)
    requires m != [] && forall e | e in m :: EntryTraced(e, ls)
    requires forall s | s in steps' :: s.0 in ls && IsInfix(s.1, ls)
    ensures forall e | e in UpdateLast(m, steps') :: EntryTraced(e, ls)
  {
    assert m[|m| - 1] in m;
    forall e | e in UpdateLast(m, steps') ensures EntryTraced(e, ls) {
      if e !in m[..|m| - 1] {
        assert e == (m[|m| - 1].0, steps');
      }
    }
  }

  lemma ConsumeRowTraced(st: ScanState, ls: seq<string>, line: string)
    requires Traced(st, ls) && IsRow(line) && !IsHeader(line)
    requires st.currentStep.Some? && st.scenarios != []
    ensures Traced(Consume(st, line), ls + [line])
  {
    var m, ls' := st.scenarios, ls + [line];
    var c := st.currentStep.value;
    var steps := m[|m| - 1].1;
    var rows := Get(steps, c).value;
    assert m[|m| - 1] in m;
    assert (c, rows) in steps;
    forall e | e in m ensures EntryTraced(e, ls') {
      TracedEntryExtend(e, ls, line);
    }
    SuffixExtend([c] + rows, ls, line);
    assert [c] + rows + [line] == [c] + (rows + [line]);
    SuffixIsInfix(rows + [line], ls');
    assert EntryTraced(m[|m| - 1], ls');
    UpdateLastTraced(m, Put(steps, c, rows + [line]), ls');
  }

  lemma ConsumeStepTraced(st: ScanState, ls: seq<string>, line: string)
    requires Traced(st, ls) && IsStepLine(line) && st.scenarios != []
    ensures Traced(Consume(st, line), ls + [line])
  {
    var m, ls' := st.scenarios, ls + [line];
    var steps := m[|m| - 1].1;
    assert m[|m| - 1] in m;
    forall e | e in m ensures EntryTraced(e, ls') {
      TracedEntryExtend(e, ls, line);
    }
    SuffixIsInfix([], ls');
    assert [line] + [] == [line];
    assert EntryTraced(m[|m| - 1], ls');
    UpdateLastTraced(m, Put(steps, line, []), ls');
  }

  lemma ConsumeTraced(st: ScanState, ls: seq<string>, line: string)
    requires Traced(st, ls)
    ensures Traced(Consume(st, line), ls + [line])
  {
    var m := st.scenarios;
    if IsHeader(line) || (IsRow(line) && st.currentStep.Some? && m == []) || (IsStepLine(line) && m == []) {
      forall e | e in Consume(st, line).scenarios ensures EntryTraced(e, ls + [line]) {
        if e in m {
          TracedEntryExtend(e, ls, line);
        }
      }
    } else if IsRow(line) && st.currentStep.Some? {
      ConsumeRowTraced(st, ls, line);
    } else if IsStepLine(line) {
      ConsumeStepTraced(st, ls, line);
    } else {
      forall e | e in m ensures EntryTraced(e, ls + [line]) {
        TracedEntryExtend(e, ls, line);
      }
    }
  }

  /** The scan invariant holds after every prefix of the lines. */
  lemma {:induction false} ScanTraced(ls: seq<string>)
    ensures Traced(Scan(ls), ls)
    decreases |ls|
  {
    if ls != [] {
      var init := ls[..|ls| - 1];
      ScanTraced(init);
      ConsumeTraced(Scan(init), init, ls[|ls| - 1]);
      assert init + [ls[|ls| - 1]] == ls;
    }
  }

  /** Every scenario key, step key and table row satisfies `Clean`. */
  ghost predicate AllClean(m: ScenarioMap) {
    forall e | e in m :: Clean(e.0) && forall s | s in e.1 :: Clean(s.0) && forall row | row in s.1 :: Clean(row)
  }

  /** Nothing in the result is blank, starts with whitespace or mentions "feature"
      in any letter case: such lines never reach the scan. */
  lemma SplitClean(contents: string)
    ensures AllClean(Split(contents))
  {
    var ls := Preprocess(contents);
    ScanTraced(ls);
    forall e | e in Split(contents)
      ensures Clean(e.0) && forall s | s in e.1 :: Clean(s.0) && forall row | row in s.1 :: Clean(row)
    {
      forall s | s in e.1 ensures Clean(s.0) && forall row | row in s.1 :: Clean(row) {
        InfixMembers(s.1, ls);
      }
    }
  }

  // ---------------------------------------------------------------------------
  // The quirks of the scan
  // ---------------------------------------------------------------------------

  /** Two states that can no longer be told apart by what follows: the same map,
      and the same current step unless the map is empty (then `lastOrNull()` is null). */
  predicate Alike(s1: ScanState, s2: ScanState) {
    s1.scenarios == s2.scenarios && (s1.scenarios != [] ==> s1.currentStep == s2.currentStep)
  }

  lemma {:induction false} ScanFromAlike(s1: ScanState, s2: ScanState, ls: seq<string>)
    requires Alike(s1, s2)
    ensures Alike(ScanFrom(s1, ls), ScanFrom(s2, ls))
    decreases |ls|
  {
    if ls != [] {
      ScanFromAlike(s1, s2, ls[..|ls| - 1]);
    }
  }

  /** Without a header line nothing is ever stored. */
  lemma {:induction false} NoHeaderNoScenario(ls: seq<string>)
    requires forall i :: 0 <= i < |ls| ==> !IsHeader(ls[i])
    ensures Scan(ls).scenarios == []
    decreases |ls|
  {
    if ls != [] {
      NoHeaderNoScenario(ls[..|ls| - 1]);
    }
  }

  /** Steps and table rows before the first `Scenario:` line leave the result unchanged. */
  lemma PreambleIgnored(pre: seq<string>, rest: seq<string>)
    requires forall i :: 0 <= i < |pre| ==> !IsHeader(pre[i])
    ensures Scan(pre + rest).scenarios == Scan(rest).scenarios
  {
    ScanFromAppend(Initial, pre, rest);
    NoHeaderNoScenario(pre);
    ScanFromAlike(Scan(pre), Initial, rest);
  }

  /** A `|` row right after a `Scenario:` line, before any step, is discarded. */
  lemma RowAfterHeaderDiscarded(ls: seq<string>, header: string, row: string)
    requires IsHeader(header) && IsRow(row)
    ensures Scan(ls + [header, row]) == Scan(ls + [header])
  {
    var a, b := ls + [header], ls + [header, row];
    assert b[..|b| - 1] == a && a[..|a| - 1] == ls;
    ScanSnoc(ls, header);
    RowIsNotHeader(row);
    assert Scan(a).currentStep == None;
    assert Scan(b) == Consume(Scan(a), row);
  }

  /** The scan of one more line of `ls` is one more `Consume`. */
  lemma ScanPrefix(ls: seq<string>, i: nat)
    requires i < |ls|
    ensures Scan(ls[..i + 1]) == Consume(Scan(ls[..i]), ls[i])
  {
    assert ls[..i + 1][..i] == ls[..i];
  }

  /** Reading one more line is one more `Consume`. */
  lemma ScanSnoc(ls: seq<string>, line: string)
    ensures Scan(ls + [line]) == Consume(Scan(ls), line)
  {
    assert (ls + [line])[..|ls|] == ls;
  }

  /** A `|` row is appended to the current step's table in the last-inserted scenario;
      no other table and no key changes. */
  lemma RowAppended(ls: seq<string>, row: string)
    requires IsRow(row) && Scan(ls).currentStep.Some? && Scan(ls).scenarios != []
    ensures var m, m' := Scan(ls).scenarios, Scan(ls + [row]).scenarios;
      var c := Scan(ls).currentStep.value;
      var steps, steps' := LastValue(m).value, LastValue(m').value;
      Keys(m') == Keys(m) && m'[..|m| - 1] == m[..|m| - 1]
      && Get(steps, c).Some?
      && Keys(steps') == Keys(steps)
      && Get(steps', c) == Some(Get(steps, c).value + [row])
      && (forall k :: k != c ==> Get(steps', k) == Get(steps, k))
      && Scan(ls + [row]).currentStep == Some(c)
  {
    var st := Scan(ls);
    var m, c := st.scenarios, st.currentStep.value;
    var steps := LastValue(m).value;
    ScanTraced(ls);
    ScanSnoc(ls, row);
    RowIsNotHeader(row);
    var rows := Get(steps, c).value;
    assert Scan(ls + [row]).scenarios == UpdateLast(m, Put(steps, c, rows + [row]));
  }

  /** Repeating a `Scenario:` line empties that scenario where it stands, clears the
      current step and leaves every other scenario, including the last-inserted one
      that later steps go to, as it was. */
  lemma RepeatedHeaderResets(ls: seq<string>, header: string)
    requires IsHeader(header) && header in Keys(Scan(ls).scenarios)
    ensures var m, m' := Scan(ls).scenarios, Scan(ls + [header]).scenarios;
      Keys(m') == Keys(m)
      && Get(m', header) == Some([])
      && (forall k :: k != header ==> Get(m', k) == Get(m, k))
      && Scan(ls + [header]).currentStep == None
  {
    ScanSnoc(ls, header);
  }

  /** After a repeated header, a step goes to the scenario inserted last, not to the
      repeated one, when they differ. */
  lemma StepAfterRepeatedHeader(ls: seq<string>, header: string, step: string)
    requires IsHeader(header) && IsStepLine(step)
    requires header in Keys(Scan(ls).scenarios)
    requires Keys(Scan(ls).scenarios)[|Scan(ls).scenarios| - 1] != header
    ensures var m := Scan(ls + [header, step]).scenarios;
      Get(m, header) == Some([])
      && LastValue(m) == Some(Put(LastValue(Scan(ls).scenarios).value, step, []))
  {
    var st := Scan(ls);
    var a := ls + [header];
    var b := ls + [header, step];
    assert b == a + [step];
    ScanSnoc(ls, header);
    ScanSnoc(a, step);
    assert Scan(b) == Consume(Consume(st, header), step);
    HeaderThenStep(st, header, step);
  }

  lemma HeaderThenStep(st: ScanState, header: string, step: string)
    requires IsHeader(header) && IsStepLine(step)
    requires header in Keys(st.scenarios) && Keys(st.scenarios)[|st.scenarios| - 1] != header
    ensures var m := Consume(Consume(st, header), step).scenarios;
      Get(m, header) == Some([])
      && LastValue(m) == Some(Put(LastValue(st.scenarios).value, step, []))
  {
    var m0 := st.scenarios;
    var m1 := Consume(st, header).scenarios;
    var n := |m0|;
    var i := IndexOf(m0, header);
    assert m1 == m0[i := (header, [])];
    assert LastValue(m1) == LastValue(m0);
    var m2 := Consume(Consume(st, header), step).scenarios;
    assert m2 == UpdateLast(m1, Put(LastValue(m0).value, step, []));
    IndexOfSame(m1, m2, header);
    IndexOfSame(m0, m1, header);
    assert m2[i] == m1[i];
  }

  /** Repeating a step line in the last-inserted scenario keeps one entry for it at its
      first position and empties its table. */
  lemma RepeatedStepResets(ls: seq<string>, step: string)
    requires IsStepLine(step) && Scan(ls).scenarios != []
    requires step in Keys(LastValue(Scan(ls).scenarios).value)
    ensures var steps, steps' := LastValue(Scan(ls).scenarios).value, LastValue(Scan(ls + [step]).scenarios).value;
      Keys(steps') == Keys(steps)
      && Get(steps', step) == Some([])
      && (forall k :: k != step ==> Get(steps', k) == Get(steps, k))
      && Scan(ls + [step]).currentStep == Some(step)
  {
    ScanSnoc(ls, step);
  }

  /** A step line not yet present in the last-inserted scenario becomes its last step,
      with an empty table, and is the current step from then on. */
  lemma NewStepAppended(ls: seq<string>, step: string)
    requires IsStepLine(step) && Scan(ls).scenarios != []
    requires step !in Keys(LastValue(Scan(ls).scenarios).value)
    ensures var steps, steps' := LastValue(Scan(ls).scenarios).value, LastValue(Scan(ls + [step]).scenarios).value;
      Keys(steps') == Keys(steps) + [step]
      && Get(steps', step) == Some([])
      && Scan(ls + [step]).currentStep == Some(step)
  {
    ScanSnoc(ls, step);
  }

  /** On a line that is not blank (as every preprocessed line is), only a `Scenario:`
      line clears the current step: the `isBlank` branch is never taken. */
  lemma OnlyHeadersClearCurrentStep(st: ScanState, line: string)
    requires Clean(line) && !IsHeader(line) && st.currentStep.Some?
    ensures Consume(st, line).currentStep.Some?
    ensures Consume(st, line).currentStep == if IsRow(line) then st.currentStep else Some(line)
  {
  }
}
