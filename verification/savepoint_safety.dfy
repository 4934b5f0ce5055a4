/** Marks against whole copies. */
module SavepointSafety {
  import opened SavepointModel
  import opened Sequences

  /** The simple form: a savepoint keeps both sets as they are. */
  datatype Copy = Copy(name: string, writes: seq<Write>, readings: seq<Read>)

  datatype Plain = Plain(writes: seq<Write>, readings: seq<Read>, copies: seq<Copy>, serializable: bool)

  datatype Step =
    | WriteStep(w: Write)
    | ReadStep(r: Read)
    | CreateStep(name: string)
    | RollbackStep(name: string)
    | ReleaseStep(name: string)

  function CopyNames(copies: seq<Copy>): (r: seq<string>)
    ensures |r| == |copies|
  {
    seq(|copies|, i requires 0 <= i < |copies| => copies[i].name)
  }

  /** Where the last copy of a name is. */
  function LastAt(p: Plain, name: string): (k: int)
    ensures -1 <= k < |p.copies|
  {
    LastNamed(CopyNames(p.copies), name, |p.copies|)
  }

  function DoPlain(p: Plain, step: Step): (Plain, bool) {
    match step
    case WriteStep(w) => (p.(writes := p.writes + [w]), true)
    case ReadStep(r) => if p.serializable then (p.(readings := p.readings + [r]), true) else (p, false)
    case CreateStep(name) => (p.(copies := p.copies + [Copy(name, p.writes, p.readings)]), true)
    case RollbackStep(name) =>
      var k := LastAt(p, name);
      if k < 0 then (p, false)
      else (p.(writes := p.copies[k].writes, readings := p.copies[k].readings, copies := p.copies[..k + 1]), true)
    case ReleaseStep(name) =>
      var k := FirstNamed(CopyNames(p.copies), name, 0);
      if k < |p.copies| then (p.(copies := Without(p.copies, k)), true) else (p, false)
  }

  function DoMarks(t: Txn, step: Step): (Txn, bool)
    requires Marked(t)
  {
    match step
    case WriteStep(w) => (TrackWrite(t, w), true)
    case ReadStep(r) => TrackRead(t, r)
    case CreateStep(name) => (Create(t, name), true)
    case RollbackStep(name) => Rollback(t, name)
    case ReleaseStep(name) => Release(t, name)
  }

  // ----- Simulation ---------------------------------------------------------------

  /** The mark is a length, and the sets up to it are still what was copied. */
  predicate Stands(t: Txn, s: Savepoint, c: Copy) {
    && s.name == c.name && s.writeMark == |c.writes| && s.readMark == |c.readings|
    && c.writes <= t.writes && c.readings <= t.readings
  }

  predicate Within(c: Copy, d: Copy) {
    c.writes <= d.writes && c.readings <= d.readings
  }

  predicate Matches(t: Txn, p: Plain) {
    && t.writes == p.writes && t.readings == p.readings && t.serializable == p.serializable
    && |t.saves| == |p.copies|
    && (forall i | 0 <= i < |t.saves| :: Stands(t, t.saves[i], p.copies[i]))
    && (forall i, j | 0 <= i < j < |p.copies| :: Within(p.copies[i], p.copies[j]))
  }

  lemma MatchesIsMarked(t: Txn, p: Plain)
    requires Matches(t, p)
    ensures Marked(t)
  {
    forall i | 0 <= i < |t.saves| ensures t.saves[i].writeMark <= |t.writes| && t.saves[i].readMark <= |t.readings| {
      assert Stands(t, t.saves[i], p.copies[i]);
    }
  }

  lemma SameNames(t: Txn, p: Plain)
    requires Matches(t, p)
    ensures Names(t.saves) == CopyNames(p.copies)
  {
    forall i | 0 <= i < |t.saves| ensures t.saves[i].name == p.copies[i].name {
      assert Stands(t, t.saves[i], p.copies[i]);
    }
  }

  lemma RollbackMatches(t: Txn, p: Plain, name: string)
    requires Matches(t, p) && Marked(t)
    ensures var (t', okT) := DoMarks(t, RollbackStep(name));
      var (p', okP) := DoPlain(p, RollbackStep(name));
      okT == okP && Matches(t', p')
  {
    SameNames(t, p);
    var k := LastNamed(Names(t.saves), name, |t.saves|);
    if k >= 0 {
      assert Stands(t, t.saves[k], p.copies[k]);
      assert t.writes[..t.saves[k].writeMark] == p.copies[k].writes;
      assert t.readings[..t.saves[k].readMark] == p.copies[k].readings;
      var t', p' := DoMarks(t, RollbackStep(name)).0, DoPlain(p, RollbackStep(name)).0;
      forall i | 0 <= i < |t'.saves| ensures Stands(t', t'.saves[i], p'.copies[i]) {
        assert Stands(t, t.saves[i], p.copies[i]);
        assert i < k ==> Within(p.copies[i], p.copies[k]);
      }
      forall i, j | 0 <= i < j < |p'.copies| ensures Within(p'.copies[i], p'.copies[j]) {
        assert Within(p.copies[i], p.copies[j]);
      }
    }
  }

  lemma ReleaseMatches(t: Txn, p: Plain, name: string)
    requires Matches(t, p) && Marked(t)
    ensures var (t', okT) := DoMarks(t, ReleaseStep(name));
      var (p', okP) := DoPlain(p, ReleaseStep(name));
      okT == okP && Matches(t', p')
  {
    SameNames(t, p);
    var k := FirstNamed(Names(t.saves), name, 0);
    if k < |t.saves| {
      WithoutMatches(t, p, k);
    }
  }

  lemma WithoutMatches(t: Txn, p: Plain, k: nat)
    requires Matches(t, p) && k < |t.saves|
    ensures Matches(t.(saves := Without(t.saves, k)), p.(copies := Without(p.copies, k)))
  {
    var saves, copies := Without(t.saves, k), Without(p.copies, k);
    forall i | 0 <= i < |saves| ensures Stands(t.(saves := saves), saves[i], copies[i]) {
      var at := if i < k then i else i + 1;
      assert Stands(t, t.saves[at], p.copies[at]);
    }
    forall i, j | 0 <= i < j < |copies| ensures Within(copies[i], copies[j]) {
      var a, b := if i < k then i else i + 1, if j < k then j else j + 1;
      assert Within(p.copies[a], p.copies[b]);
    }
  }

  lemma GrowMatches(t: Txn, p: Plain, t': Txn, p': Plain)
    requires Matches(t, p) && t'.writes == p'.writes && t'.readings == p'.readings && t'.serializable == p'.serializable
    requires t.writes <= t'.writes && t.readings <= t'.readings && t'.saves == t.saves && p'.copies == p.copies
    ensures Matches(t', p')
  {
    forall i | 0 <= i < |t.saves| ensures Stands(t', t.saves[i], p.copies[i]) {
      assert Stands(t, t.saves[i], p.copies[i]);
    }
  }

  lemma CreateMatches(t: Txn, p: Plain, name: string)
    requires Matches(t, p) && Marked(t)
    ensures Matches(DoMarks(t, CreateStep(name)).0, DoPlain(p, CreateStep(name)).0)
  {
    var t', p' := DoMarks(t, CreateStep(name)).0, DoPlain(p, CreateStep(name)).0;
    forall i | 0 <= i < |t'.saves| ensures Stands(t', t'.saves[i], p'.copies[i]) {
      assert i < |t.saves| ==> Stands(t, t.saves[i], p.copies[i]);
    }
    forall i, j | 0 <= i < j < |p'.copies| ensures Within(p'.copies[i], p'.copies[j]) {
      assert if j < |p.copies| then Within(p.copies[i], p.copies[j]) else Stands(t, t.saves[i], p.copies[i]);
    }
  }

  lemma StepMatches(t: Txn, p: Plain, step: Step)
    requires Matches(t, p) && Marked(t)
    ensures DoMarks(t, step).1 == DoPlain(p, step).1 && Matches(DoMarks(t, step).0, DoPlain(p, step).0)
  {
    match step
    case WriteStep(w) => GrowMatches(t, p, DoMarks(t, step).0, DoPlain(p, step).0);
    case ReadStep(r) => GrowMatches(t, p, DoMarks(t, step).0, DoPlain(p, step).0);
    case CreateStep(name) => CreateMatches(t, p, name);
    case RollbackStep(name) => RollbackMatches(t, p, name);
    case ReleaseStep(name) => ReleaseMatches(t, p, name);
  }

  // ----- Main results -----------------------------------------------------------------

  function RunPlain(p: Plain, steps: seq<Step>): (Plain, seq<bool>) {
    if steps == [] then (p, [])
    else
      var (q, oks) := RunPlain(p, steps[..|steps| - 1]);
      var (r, ok) := DoPlain(q, steps[|steps| - 1]);
      (r, oks + [ok])
  }

  /** The program's run, together with its match to the simple form. */
  function RunMarks(serializable: bool, steps: seq<Step>): (r: (Txn, seq<bool>))
    ensures Marked(r.0)
    ensures var plain := RunPlain(Plain([], [], [], serializable), steps);
      r.1 == plain.1 && Matches(r.0, plain.0)
    decreases |steps|
  {
    if steps == [] then (Txn([], [], [], serializable), [])
    else
      var (t, oks) := RunMarks(serializable, steps[..|steps| - 1]);
      var p := RunPlain(Plain([], [], [], serializable), steps[..|steps| - 1]).0;
      var step := steps[|steps| - 1];
      StepMatches(t, p, step);
      MatchesIsMarked(DoMarks(t, step).0, DoPlain(p, step).0);
      var (u, ok) := DoMarks(t, step);
      (u, oks + [ok])
  }

  /** Marks are as good as copies: after every run of tracked reads and writes, savepoints, rollbacks
      and releases, both sets, the savepoints' names and every answer are those of the simple form. */
  lemma MarksRefineCopies(serializable: bool, steps: seq<Step>)
    ensures var (t, oks) := RunMarks(serializable, steps);
      var (p, plainOks) := RunPlain(Plain([], [], [], serializable), steps);
      && oks == plainOks && t.writes == p.writes && t.readings == p.readings
      && Names(t.saves) == CopyNames(p.copies)
  {
    SameNames(RunMarks(serializable, steps).0, RunPlain(Plain([], [], [], serializable), steps).0);
  }

  /** In every run marks are bounded by the sets and never fall from one savepoint to the next. */
  lemma MarksNeverFall(serializable: bool, steps: seq<Step>, i: nat, j: nat)
    requires i < j < |RunMarks(serializable, steps).0.saves|
    ensures var t := RunMarks(serializable, steps).0;
      && t.saves[i].writeMark <= t.saves[j].writeMark <= |t.writes|
      && t.saves[i].readMark <= t.saves[j].readMark <= |t.readings|
  {
    var t, p := RunMarks(serializable, steps).0, RunPlain(Plain([], [], [], serializable), steps).0;
    assert Stands(t, t.saves[i], p.copies[i]) && Stands(t, t.saves[j], p.copies[j]);
    assert Within(p.copies[i], p.copies[j]);
  }

  function Creates(steps: seq<Step>): nat {
    if steps == [] then 0 else Creates(steps[..|steps| - 1]) + if steps[|steps| - 1].CreateStep? then 1 else 0
  }

  lemma StepSaves(t: Txn, step: Step)
    requires Marked(t)
    ensures |DoMarks(t, step).0.saves| <= |t.saves| + if step.CreateStep? then 1 else 0
    ensures step.CreateStep? ==> |DoMarks(t, step).0.saves| == |t.saves| + 1
  {
  }

  lemma {:induction false} SavesAreCreates(serializable: bool, steps: seq<Step>)
    ensures |RunMarks(serializable, steps).0.saves| <= Creates(steps)
    decreases |steps|
  {
    if steps != [] {
      var init := steps[..|steps| - 1];
      SavesAreCreates(serializable, init);
      StepSaves(RunMarks(serializable, init).0, steps[|steps| - 1]);
    }
  }

  lemma {:induction false} CreatesSave(serializable: bool, n: nat)
    ensures var steps := seq(n, _ => CreateStep("s"));
      |RunMarks(serializable, steps).0.saves| == n && Creates(steps) == n
  {
    if n > 0 {
      var steps := seq(n, _ => CreateStep("s"));
      assert steps[..n - 1] == seq(n - 1, _ => CreateStep("s"));
      CreatesSave(serializable, n - 1);
      StepSaves(RunMarks(serializable, steps[..n - 1]).0, steps[n - 1]);
    }
  }

  /** The array of savepoints, which is never grown, has room in every run with so many creations exactly
      if they are at most eight. */
  lemma SavepointsFitIff(n: nat)
    ensures (forall serializable, steps | Creates(steps) <= n ::
               |RunMarks(serializable, steps).0.saves| <= MAX_SAVEPOINTS) <==> n <= MAX_SAVEPOINTS
  {
    forall serializable, steps ensures |RunMarks(serializable, steps).0.saves| <= Creates(steps) {
      SavesAreCreates(serializable, steps);
    }
    CreatesSave(true, MAX_SAVEPOINTS + 1);
  }

  /** A step that leaves the last savepoint of this name standing: it makes or releases none of this
      name, and rolls back to no savepoint made before it. */
  predicate Spares(p: Plain, name: string, step: Step) {
    && !(step.CreateStep? && step.name == name) && !(step.ReleaseStep? && step.name == name)
    && (step.RollbackStep? ==>
          LastAt(p, step.name) < 0 || LastAt(p, step.name) >= LastAt(p, name))
  }

  predicate AllSpare(p: Plain, name: string, steps: seq<Step>) {
    forall i | 0 <= i < |steps| :: Spares(RunPlain(p, steps[..i]).0, name, steps[i])
  }

  /** The simple form after these steps and a savepoint. */
  function Saved(serializable: bool, before: seq<Step>, name: string): Plain {
    DoPlain(RunPlain(Plain([], [], [], serializable), before).0, CreateStep(name)).0
  }

  /** Rolling back undoes: whatever is tracked after a savepoint, and whatever inner savepoints are
      made, rolled back to or released, both sets come back as they were when it was made. */
  lemma RollbackUndoes(serializable: bool, before: seq<Step>, name: string, after: seq<Step>)
    requires AllSpare(Saved(serializable, before, name), name, after)
    ensures var first := RunMarks(serializable, before).0;
      var last := RunMarks(serializable, before + ([CreateStep(name)] + (after + [RollbackStep(name)]))).0;
      last.writes == first.writes && last.readings == first.readings
  {
    CopyStays(Saved(serializable, before, name), name, after);
    RunsApart(Plain([], [], [], serializable), before, CreateStep(name), after, RollbackStep(name));
  }

  lemma RunsApart(start: Plain, before: seq<Step>, a: Step, after: seq<Step>, b: Step)
    ensures RunPlain(start, before + ([a] + (after + [b]))).0
         == DoPlain(RunPlain(DoPlain(RunPlain(start, before).0, a).0, after).0, b).0
  {
    var first := RunPlain(start, before).0;
    RunsCompose(start, before, [a] + (after + [b]));
    RunsCompose(first, [a], after + [b]);
    RunsOne(first, a);
    RunsCompose(DoPlain(first, a).0, after, [b]);
    RunsOne(RunPlain(DoPlain(first, a).0, after).0, b);
  }

  lemma RunsOne(p: Plain, step: Step)
    ensures RunPlain(p, [step]).0 == DoPlain(p, step).0
  {
    assert [step][..0] == [];
  }

  lemma {:induction false} RunsCompose(p: Plain, first: seq<Step>, second: seq<Step>)
    ensures RunPlain(p, first + second).0 == RunPlain(RunPlain(p, first).0, second).0
    decreases |second|
  {
    if second == [] {
      assert first + second == first;
    } else {
      var init := second[..|second| - 1];
      assert (first + second)[..|first + second| - 1] == first + init;
      RunsCompose(p, first, init);
    }
  }

  lemma SparesSplit(p: Plain, name: string, init: seq<Step>, last: Step)
    requires AllSpare(p, name, init + [last])
    ensures AllSpare(p, name, init) && Spares(RunPlain(p, init).0, name, last)
  {
    var steps := init + [last];
    forall i | 0 <= i < |init| ensures Spares(RunPlain(p, init[..i]).0, name, init[i]) {
      assert init[..i] == steps[..i] && init[i] == steps[i];
    }
    assert steps[..|init|] == init && steps[|init|] == last;
  }

  lemma RunLast(p: Plain, init: seq<Step>, last: Step)
    ensures RunPlain(p, init + [last]).0 == DoPlain(RunPlain(p, init).0, last).0
  {
    assert (init + [last])[..|init|] == init;
  }

  /** The last copy of that name stays the last of its name. */
  lemma {:induction false} CopyStays(p: Plain, name: string, steps: seq<Step>)
    requires LastAt(p, name) >= 0 && AllSpare(p, name, steps)
    ensures StaysLast(p, RunPlain(p, steps).0, name)
    decreases |steps|
  {
    if steps == [] {
      assert RunPlain(p, steps).0 == p;
    } else {
      var init, last := steps[..|steps| - 1], steps[|steps| - 1];
      assert steps == init + [last];
      SparesSplit(p, name, init, last);
      CopyStays(p, name, init);
      LastCopyStays(RunPlain(p, init).0, name, last);
      RunLast(p, init, last);
    }
  }

  /** The last copy of the name is the same in both. */
  predicate StaysLast(p: Plain, q: Plain, name: string)
    requires LastAt(p, name) >= 0
  {
    LastAt(q, name) >= 0 && q.copies[LastAt(q, name)] == p.copies[LastAt(p, name)]
  }

  lemma LastIs(names: seq<string>, name: string, k: nat)
    requires k < |names| && names[k] == name && forall j | k < j < |names| :: names[j] != name
    ensures LastNamed(names, name, |names|) == k
  {
  }

  lemma LastWithout(names: seq<string>, m: nat, name: string)
    requires m < |names| && LastNamed(names, name, |names|) >= 0 && names[m] != name
    ensures var k := LastNamed(names, name, |names|);
      LastNamed(Without(names, m), name, |names| - 1) == if k < m then k else k - 1
  {
    var k := LastNamed(names, name, |names|);
    LastIs(Without(names, m), name, if k < m then k else k - 1);
  }

  lemma ReleaseSpares(p: Plain, name: string, other: string)
    requires other != name && LastAt(p, name) >= 0
    ensures var q := DoPlain(p, ReleaseStep(other)).0;
      LastAt(q, name) >= 0 && q.copies[LastAt(q, name)] == p.copies[LastAt(p, name)]
  {
    var names := CopyNames(p.copies);
    var m := FirstNamed(names, other, 0);
    if m < |p.copies| {
      RemovalSpares(p.copies, m, name);
    }
  }

  lemma RemovalSpares(copies: seq<Copy>, m: nat, name: string)
    requires m < |copies| && copies[m].name != name && LastNamed(CopyNames(copies), name, |copies|) >= 0
    ensures var rest := Without(copies, m);
      var k := LastNamed(CopyNames(rest), name, |rest|);
      k >= 0 && rest[k] == copies[LastNamed(CopyNames(copies), name, |copies|)]
  {
    LastWithout(CopyNames(copies), m, name);
    NamesWithout(copies, m);
  }

  lemma NamesWithout(copies: seq<Copy>, m: nat)
    requires m < |copies|
    ensures CopyNames(Without(copies, m)) == Without(CopyNames(copies), m)
  {
    var rest := Without(copies, m);
    forall i | 0 <= i < |rest| ensures rest[i].name == Without(CopyNames(copies), m)[i] { }
  }

  lemma RollbackSpares(p: Plain, name: string, other: string)
    requires LastAt(p, name) >= 0 && (LastAt(p, other) < 0 || LastAt(p, other) >= LastAt(p, name))
    ensures var q := DoPlain(p, RollbackStep(other)).0;
      LastAt(q, name) == LastAt(p, name) && q.copies[LastAt(q, name)] == p.copies[LastAt(p, name)]
  {
    var m := LastAt(p, other);
    if m >= 0 {
      assert CopyNames(p.copies[..m + 1]) == CopyNames(p.copies)[..m + 1];
      LastIs(CopyNames(p.copies)[..m + 1], name, LastAt(p, name));
    }
  }

  lemma CreateSpares(p: Plain, name: string, other: string)
    requires other != name && LastAt(p, name) >= 0
    ensures var q := DoPlain(p, CreateStep(other)).0;
      LastAt(q, name) == LastAt(p, name) && q.copies[LastAt(q, name)] == p.copies[LastAt(p, name)]
  {
    var q := DoPlain(p, CreateStep(other)).0;
    assert CopyNames(q.copies) == CopyNames(p.copies) + [other];
    LastIs(CopyNames(q.copies), name, LastAt(p, name));
  }

  lemma LastCopyStays(p: Plain, name: string, step: Step)
    requires Spares(p, name, step) && LastAt(p, name) >= 0
    ensures var q := DoPlain(p, step).0;
      LastAt(q, name) >= 0 && q.copies[LastAt(q, name)] == p.copies[LastAt(p, name)]
  {
    match step
    case WriteStep(w) =>
    case ReadStep(r) =>
    case CreateStep(other) => CreateSpares(p, name, other);
    case RollbackStep(other) => RollbackSpares(p, name, other);
    case ReleaseStep(other) => ReleaseSpares(p, name, other);
  }
}
