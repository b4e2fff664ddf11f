/** The concurrent suite runner of test-runner.ts: a pool of workers over a shared queue, then one isolated suite. */
module TestRunner {
  import opened Text

  datatype SuiteResult = SuiteResult(file: string, success: bool)

  /** What a child process reports. A child may fire `error` and `close` both. */
  datatype Event = Close(code: Option<int>) | Error

  datatype Worker = Idle | Awaiting(index: nat) | Exited

  datatype Phase = Pooling | RepoRunning(settled: Option<bool>) | Done(exitCode: int)

  datatype Config = Config(suites: seq<string>, repo: Option<string>, numWorkers: nat)

  /** `children[i]` is the promise of suite `i`: unset until the first event. `finished` lists the recorded
      suites in the order of recording. */
  datatype State = State(
    nextIndex: nat,
    children: seq<Option<bool>>,
    workers: seq<Worker>,
    finished: seq<nat>,
    results: seq<SuiteResult>,
    completed: nat,
    passed: nat,
    failed: nat,
    phase: Phase)

  /** The points where the event loop gives control to the program. Between them nothing else runs. */
  datatype Label =
    | Launch(w: nat)
    | ChildEvent(i: nat, ev: Event)
    | Resume(w: nat)
    | Join
    | RepoEvent(ev: Event)
    | RepoResume

  // ---------------------------------------------------------------- choosing the suites

  predicate IsRepoValidator(file: string) {
    EndsWith(file, "validate-repo.ts")
  }

  predicate IsParallel(file: string) {
    !IsRepoValidator(file)
  }

  function Find(files: seq<string>): Option<string> {
    if files == [] then None
    else if IsRepoValidator(files[0]) then Some(files[0])
    else Find(files[1..])
  }

  /** `Math.min(os.cpus().length || 4, 4)` */
  function NumWorkers(cpus: nat): (n: nat)
    ensures 1 <= n <= 4
  {
    var c := if cpus == 0 then 4 else cpus;
    if c < 4 then c else 4
  }

  function Configure(files: seq<string>, cpus: nat): Config {
    Config(Filter(files, IsParallel), Find(files), NumWorkers(cpus))
  }

  /** Which suites run in the pool, which one runs alone, and with how many workers: the pool gets the files that do not
      end in `validate-repo.ts`, the first one that does runs alone, and four processors or none count as four. */
  lemma {:induction false} ConfigureMeans(files: seq<string>, cpus: nat)
    ensures var c := Configure(files, cpus);
            && (forall f :: f in c.suites <==> f in files && !EndsInValidator(f))
            && ((forall f :: f in files ==> !EndsInValidator(f)) ==> c.suites == files)
            && (forall a, v, b :: files == a + [v] + b && EndsInValidator(v) ==>
                 c.suites == Configure(a + b, cpus).suites)
            && (match c.repo
                case Some(f) => exists k ::
                  && 0 <= k < |files| && files[k] == f && EndsInValidator(f)
                  && forall j :: 0 <= j < k ==> !EndsInValidator(files[j])
                case None => forall f :: f in files ==> !EndsInValidator(f))
            && (if 1 <= cpus <= 4 then c.numWorkers == cpus else c.numWorkers == 4)
  {
    hide IsRepoValidator, EndsInValidator;
    forall f
      ensures IsRepoValidator(f) <==> EndsInValidator(f)
    {
      ValidatorMeans(f);
    }
    FindMeans(files);
    if forall f :: f in files ==> !EndsInValidator(f) {
      FilterKeeps(files, IsParallel);
    }
    forall a, v, b | files == a + [v] + b && EndsInValidator(v)
      ensures Filter(files, IsParallel) == Filter(a + b, IsParallel)
    {
      FilterDrops(a, v, b, IsParallel);
    }
  }

  ghost predicate EndsInValidator(f: string) {
    exists front :: f == front + "validate-repo.ts"
  }

  lemma ValidatorMeans(f: string)
    ensures IsRepoValidator(f) <==> EndsInValidator(f)
  {
    hide EndsWith;
    EndsWithMeans(f, "validate-repo.ts");
  }

  lemma {:induction false} FindMeans(files: seq<string>)
    ensures match Find(files)
            case Some(f) => exists k ::
              && 0 <= k < |files| && files[k] == f && IsRepoValidator(f)
              && forall j :: 0 <= j < k ==> !IsRepoValidator(files[j])
            case None => forall f :: f in files ==> !IsRepoValidator(f)
  {
    hide IsRepoValidator;
    if files != [] {
      FindMeans(files[1..]);
      if IsRepoValidator(files[0]) {
        assert files[0] == Find(files).value;
      } else if Find(files).Some? {
        var f := Find(files).value;
        var k :| 0 <= k < |files[1..]| && files[1..][k] == f && IsRepoValidator(f)
                 && forall j :: 0 <= j < k ==> !IsRepoValidator(files[1..][j]);
        assert files[k + 1] == f;
        forall j | 0 <= j < k + 1
          ensures !IsRepoValidator(files[j])
        {
          if j > 0 {
            assert files[1..][j - 1] == files[j];
          }
        }
      } else {
        assert files == [files[0]] + files[1..];
      }
    }
  }

  // ---------------------------------------------------------------- one step

  function Succeeds(ev: Event): bool {
    ev == Close(Some(0))
  }

  /** A promise resolves once. */
  function Settle(promise: Option<bool>, ev: Event): Option<bool> {
    if promise.Some? then promise else Some(Succeeds(ev))
  }

  function Init(c: Config): State {
    State(0, [], seq(c.numWorkers, _ => Idle), [], [], 0, 0, 0, Pooling)
  }

  function Record(s: State, file: string, success: bool): State {
    s.(results := s.results + [SuiteResult(file, success)],
       completed := s.completed + 1,
       passed := if success then s.passed + 1 else s.passed,
       failed := if success then s.failed else s.failed + 1)
  }

  /** The head of the worker's loop: claim the next suite and spawn it, or leave. */
  function Claim(c: Config, s: State, w: nat): State
    requires w < |s.workers|
  {
    if s.nextIndex < |c.suites| then
      s.(workers := s.workers[w := Awaiting(s.nextIndex)], children := s.children + [None],
          nextIndex := s.nextIndex + 1)
    else s.(workers := s.workers[w := Exited])
  }

  function ExitCode(s: State): int {
    if s.failed == 0 then 0 else 1
  }

  function Apply(c: Config, s: State, l: Label): Option<State> {
    match l
    case Launch(w) =>
      if s.phase == Pooling && w < |s.workers| && s.workers[w] == Idle then Some(Claim(c, s, w)) else None
    case ChildEvent(i, ev) =>
      if i < |s.children| then Some(s.(children := s.children[i := Settle(s.children[i], ev)])) else None
    case Resume(w) =>
      if s.phase == Pooling && w < |s.workers| && s.workers[w].Awaiting? then
        var i := s.workers[w].index;
        if i < |s.children| && i < |c.suites| && s.children[i].Some? then
          var s' := Record(s, c.suites[i], s.children[i].value);
          Some(Claim(c, s'.(finished := s.finished + [i]), w))
        else None
      else None
    case Join =>
      if s.phase == Pooling && forall w :: 0 <= w < |s.workers| ==> s.workers[w] == Exited then
        Some(s.(phase := if c.repo.Some? then RepoRunning(None) else Done(ExitCode(s))))
      else None
    case RepoEvent(ev) =>
      if s.phase.RepoRunning? then Some(s.(phase := RepoRunning(Settle(s.phase.settled, ev)))) else None
    case RepoResume =>
      if c.repo.Some? && s.phase.RepoRunning? && s.phase.settled.Some? then
        var s' := Record(s, c.repo.value, s.phase.settled.value);
        Some(s'.(phase := Done(ExitCode(s'))))
      else None
  }

  /** A run: any interleaving of the labels that are possible one after the other. */
  function Exec(c: Config, labels: seq<Label>): Option<State> {
    if labels == [] then Some(Init(c))
    else
      match Exec(c, labels[..|labels| - 1])
      case None => None
      case Some(s) => Apply(c, s, labels[|labels| - 1])
  }

  // ---------------------------------------------------------------- the invariant

  function Own(x: Worker): seq<nat> {
    if x.Awaiting? then [x.index] else []
  }

  function Awaited(ws: seq<Worker>): seq<nat> {
    if ws == [] then [] else Own(ws[0]) + Awaited(ws[1..])
  }

  function Upto(n: nat): seq<nat> {
    if n == 0 then [] else Upto(n - 1) + [n - 1]
  }

  function Successes(rs: seq<SuiteResult>): nat {
    if rs == [] then 0 else Successes(rs[..|rs| - 1]) + if rs[|rs| - 1].success then 1 else 0
  }

  ghost predicate InRange(c: Config, indices: seq<nat>) {
    forall k :: 0 <= k < |indices| ==> indices[k] < |c.suites|
  }

  function Files(c: Config, indices: seq<nat>): seq<string>
    requires InRange(c, indices)
  {
    seq(|indices|, k requires 0 <= k < |indices| => c.suites[indices[k]])
  }

  /** The results of the pool, without the isolated suite at the end. */
  function PoolResults(c: Config, s: State): seq<SuiteResult> {
    if c.repo.Some? && s.phase.Done? && |s.results| > 0 then s.results[..|s.results| - 1] else s.results
  }

  /** Every claimed suite is either awaited by one worker or recorded once; nothing else is. */
  ghost predicate Claims(c: Config, s: State) {
    && s.nextIndex == |s.children| <= |c.suites|
    && multiset(s.finished) + multiset(Awaited(s.workers)) == multiset(Upto(s.nextIndex))
    && |s.workers| == c.numWorkers
    && forall w :: 0 <= w < |s.workers| && s.workers[w] == Exited ==> s.nextIndex == |c.suites|
  }

  /** The counters count, and each result belongs to the suite recorded at its place. */
  ghost predicate Counts(c: Config, s: State) {
    && s.completed == |s.results|
    && s.passed == Successes(s.results) && s.failed == |s.results| - Successes(s.results)
    && |PoolResults(c, s)| == |s.finished|
    && forall k :: 0 <= k < |s.finished| ==>
         && s.finished[k] < |s.children| <= |c.suites|
         && s.children[s.finished[k]] == Some(PoolResults(c, s)[k].success)
         && PoolResults(c, s)[k].file == c.suites[s.finished[k]]
  }

  ghost predicate Phases(c: Config, s: State) {
    && (s.phase != Pooling ==> forall w :: 0 <= w < |s.workers| ==> s.workers[w] == Exited)
    && (s.phase.RepoRunning? ==> c.repo.Some?)
    && (s.phase.Done? ==>
          && s.phase.exitCode == ExitCode(s)
          && (c.repo.Some? ==> s.results != [] && s.results[|s.results| - 1].file == c.repo.value))
  }

  ghost predicate Inv(c: Config, s: State) {
    Claims(c, s) && Counts(c, s) && Phases(c, s)
  }

  lemma CountAppend(a: seq<nat>, b: seq<nat>, i: nat)
    ensures multiset(a + b)[i] == multiset(a)[i] + multiset(b)[i]
  {
  }

  /** Giving a worker something else to await changes the count of `i` by what it awaits before and after. */
  lemma {:induction false} AwaitedUpdateAt(ws: seq<Worker>, w: nat, x: Worker, i: nat)
    requires w < |ws|
    ensures multiset(Awaited(ws[w := x]))[i] + multiset(Own(ws[w]))[i] == multiset(Awaited(ws))[i] + multiset(Own(x))[i]
  {
    hide Own;
    var ws' := ws[w := x];
    CountAppend(Own(ws[0]), Awaited(ws[1..]), i);
    CountAppend(Own(ws'[0]), Awaited(ws'[1..]), i);
    if w == 0 {
      assert ws'[1..] == ws[1..];
    } else {
      assert ws'[1..] == ws[1..][w - 1 := x];
      AwaitedUpdateAt(ws[1..], w - 1, x, i);
    }
  }

  lemma AwaitedUpdate(ws: seq<Worker>, w: nat, x: Worker)
    requires w < |ws|
    ensures multiset(Awaited(ws[w := x])) + multiset(Own(ws[w])) == multiset(Awaited(ws)) + multiset(Own(x))
  {
    hide Own, Awaited;
    forall i: nat
      ensures multiset(Awaited(ws[w := x]))[i] + multiset(Own(ws[w]))[i] ==
              multiset(Awaited(ws))[i] + multiset(Own(x))[i]
    {
      AwaitedUpdateAt(ws, w, x, i);
    }
  }

  lemma {:induction false} AwaitedNone(ws: seq<Worker>)
    requires forall w :: 0 <= w < |ws| ==> !ws[w].Awaiting?
    ensures Awaited(ws) == []
  {
    if ws != [] {
      AwaitedNone(ws[1..]);
    }
  }

  lemma {:induction false} AwaitedHas(ws: seq<Worker>, w: nat)
    requires w < |ws| && ws[w].Awaiting?
    ensures ws[w].index in Awaited(ws)
  {
    if w > 0 {
      AwaitedHas(ws[1..], w - 1);
    }
  }

  lemma {:induction false} UptoCount(n: nat, i: nat)
    ensures multiset(Upto(n))[i] == if i < n then 1 else 0
  {
    if n > 0 {
      UptoCount(n - 1, i);
      CountAppend(Upto(n - 1), [n - 1], i);
    }
  }

  /** Claiming keeps the books: the new index is awaited by the claiming worker and by nobody else. */
  lemma ClaimKeepsClaims(c: Config, s: State, w: nat)
    requires w < |s.workers| == c.numWorkers && s.nextIndex == |s.children| <= |c.suites|
    requires multiset(s.finished) + multiset(Awaited(s.workers)) ==
             multiset(Upto(s.nextIndex))
    requires forall v :: 0 <= v < |s.workers| && s.workers[v] == Exited ==> s.nextIndex == |c.suites|
    requires s.workers[w] == Idle
    ensures Claims(c, Claim(c, s, w))
  {
    hide Awaited;
    var x := if s.nextIndex < |c.suites| then Awaiting(s.nextIndex) else Exited;
    AwaitedUpdate(s.workers, w, x);
    UptoSnoc(s.nextIndex);
    assert multiset(Awaited(s.workers[w := x])) == multiset(Awaited(s.workers)) + multiset(Own(x));
  }

  lemma UptoSnoc(n: nat)
    ensures multiset(Upto(n + 1)) == multiset(Upto(n)) + multiset{n}
  {
  }

  lemma SuccessesSnoc(rs: seq<SuiteResult>, r: SuiteResult)
    ensures Successes(rs + [r]) == Successes(rs) + if r.success then 1 else 0
  {
    assert (rs + [r])[..|rs|] == rs;
  }

  lemma AwaitedIsClaimed(c: Config, s: State, w: nat)
    requires Claims(c, s) && w < |s.workers| && s.workers[w].Awaiting?
    ensures s.workers[w].index < s.nextIndex && s.workers[w].index !in s.finished
  {
    hide Awaited, Upto;
    var i := s.workers[w].index;
    AwaitedHas(s.workers, w);
    UptoCount(s.nextIndex, i);
    var all := multiset(s.finished) + multiset(Awaited(s.workers));
    assert all[i] == multiset(s.finished)[i] + multiset(Awaited(s.workers))[i];
    assert i in multiset(Awaited(s.workers));
  }

  /** A worker whose suite has been recorded and that now looks for the next one. */
  function Recorded(c: Config, s: State, w: nat): State
    requires w < |s.workers| && s.workers[w].Awaiting?
    requires var i := s.workers[w].index; i < |s.children| && i < |c.suites| && s.children[i].Some?
  {
    var i := s.workers[w].index;
    Record(s, c.suites[i], s.children[i].value).(finished := s.finished + [i], workers := s.workers[w := Idle])
  }

  lemma RecordKeeps(c: Config, s: State, w: nat)
    requires Inv(c, s) && s.phase == Pooling && w < |s.workers| && s.workers[w].Awaiting?
    requires var i := s.workers[w].index; i < |s.children| && s.children[i].Some?
    ensures Claims(c, Recorded(c, s, w)) && Counts(c, Recorded(c, s, w))
  {
    hide Awaited, Upto, Successes;
    RecordKeepsClaims(c, s, w);
    var i := s.workers[w].index;
    SuccessesSnoc(s.results, SuiteResult(c.suites[i], s.children[i].value));
  }

  lemma RecordKeepsClaims(c: Config, s: State, w: nat)
    requires Claims(c, s) && w < |s.workers| && s.workers[w].Awaiting?
    requires var i := s.workers[w].index; i < |s.children| && s.children[i].Some?
    ensures Claims(c, Recorded(c, s, w))
  {
    hide Awaited, Upto, Successes;
    var i := s.workers[w].index;
    AwaitedUpdate(s.workers, w, Idle);
    assert Own(s.workers[w]) == [i] && Own(Idle) == [];
    assert multiset(Awaited(s.workers)) == multiset(Awaited(s.workers[w := Idle])) + multiset{i};
    assert multiset(s.finished + [i]) == multiset(s.finished) + multiset{i};
  }

  lemma InitInv(c: Config)
    ensures Inv(c, Init(c))
  {
    AwaitedNone(Init(c).workers);
    assert multiset(Upto(0)) == multiset{};
  }

  lemma ClaimKeepsRest(c: Config, s: State, w: nat)
    requires w < |s.workers| && s.workers[w] == Idle && s.phase == Pooling
    requires Counts(c, s) && |s.children| == s.nextIndex <= |c.suites|
    ensures Counts(c, Claim(c, s, w)) && Phases(c, Claim(c, s, w))
  {
    hide Successes;
  }

  lemma ResumeInv(c: Config, s: State, w: nat)
    requires Inv(c, s) && Apply(c, s, Resume(w)).Some?
    ensures Inv(c, Apply(c, s, Resume(w)).value)
  {
    RecordKeeps(c, s, w);
    var r := Recorded(c, s, w);
    ClaimKeepsClaims(c, r, w);
    ClaimKeepsRest(c, r, w);
    ResumeIsClaim(c, s, w);
  }

  lemma ResumeIsClaim(c: Config, s: State, w: nat)
    requires Apply(c, s, Resume(w)).Some?
    ensures Apply(c, s, Resume(w)) == Some(Claim(c, Recorded(c, s, w), w))
  {
    var x := if s.nextIndex < |c.suites| then Awaiting(s.nextIndex) else Exited;
    assert s.workers[w := Idle][w := x] == s.workers[w := x];
  }

  lemma ChildEventInv(c: Config, s: State, i: nat, ev: Event)
    requires Inv(c, s) && i < |s.children|
    ensures Inv(c, s.(children := s.children[i := Settle(s.children[i], ev)]))
  {
    hide Awaited, Upto, Successes;
  }

  lemma RepoResumeInv(c: Config, s: State)
    requires Inv(c, s) && Apply(c, s, RepoResume).Some?
    ensures Inv(c, Apply(c, s, RepoResume).value)
  {
    hide Awaited, Upto, Successes;
    var r := SuiteResult(c.repo.value, s.phase.settled.value);
    SuccessesSnoc(s.results, r);
    assert (s.results + [r])[..|s.results|] == s.results;
  }

  lemma StepInv(c: Config, s: State, l: Label)
    requires Inv(c, s) && Apply(c, s, l).Some?
    ensures Inv(c, Apply(c, s, l).value)
  {
    hide Awaited, Upto, Successes;
    match l
    case Launch(w) =>
      ClaimKeepsClaims(c, s, w);
      ClaimKeepsRest(c, s, w);
    case ChildEvent(i, ev) => ChildEventInv(c, s, i, ev);
    case Resume(w) => ResumeInv(c, s, w);
    case RepoResume => RepoResumeInv(c, s);
    case _ =>
  }

  /** The invariant holds after every run, whatever the interleaving. */
  lemma {:induction false} RunInv(c: Config, labels: seq<Label>)
    requires Exec(c, labels).Some?
    ensures Inv(c, Exec(c, labels).value)
  {
    hide Inv, Apply;
    if labels == [] {
      InitInv(c);
    } else {
      var front := labels[..|labels| - 1];
      RunInv(c, front);
      StepInv(c, Exec(c, front).value, labels[|labels| - 1]);
    }
  }

  // ---------------------------------------------------------------- safety over whole runs

  /** At every moment: claimed suites are 0..nextIndex-1, each awaited or recorded exactly once, never more in
      flight than workers, and finished plus in flight is what was claimed. */
  lemma ClaimedOnce(c: Config, labels: seq<Label>)
    requires Exec(c, labels).Some?
    ensures var s := Exec(c, labels).value;
            && (forall i: nat ::
                  multiset(s.finished)[i] + multiset(Awaited(s.workers))[i] == if i < s.nextIndex then 1 else 0)
            && |s.finished| + |Awaited(s.workers)| == s.nextIndex
            && |Awaited(s.workers)| <= c.numWorkers
  {
    hide Awaited, Upto, Apply;
    RunInv(c, labels);
    var s := Exec(c, labels).value;
    UptoIs(s.nextIndex);
    var all := multiset(s.finished) + multiset(Awaited(s.workers));
    forall i: nat
      ensures multiset(s.finished)[i] + multiset(Awaited(s.workers))[i] == if i < s.nextIndex then 1 else 0
    {
      UptoCount(s.nextIndex, i);
      assert all[i] == multiset(Upto(s.nextIndex))[i];
    }
    assert |all| == |multiset(Upto(s.nextIndex))|;
    AwaitedBound(s.workers);
  }

  lemma {:induction false} AwaitedBound(ws: seq<Worker>)
    ensures |Awaited(ws)| <= |ws|
  {
    if ws != [] {
      AwaitedBound(ws[1..]);
    }
  }

  /** No suite is in flight, and none is left, once the pool has been joined. */
  lemma NothingInFlightAfterJoin(c: Config, labels: seq<Label>)
    requires Exec(c, labels).Some? && Exec(c, labels).value.phase != Pooling && c.numWorkers >= 1
    ensures var s := Exec(c, labels).value;
            Awaited(s.workers) == [] && s.nextIndex == |c.suites| && multiset(s.finished) == multiset(Upto(|c.suites|))
  {
    RunInv(c, labels);
    var s := Exec(c, labels).value;
    AwaitedNone(s.workers);
    assert s.workers[0] == Exited;
  }

  function FileNames(rs: seq<SuiteResult>): seq<string> {
    seq(|rs|, k requires 0 <= k < |rs| => rs[k].file)
  }

  lemma Without<T>(a: seq<T>, k: nat)
    requires k < |a|
    ensures multiset(a) == multiset(a[..k] + a[k + 1..]) + multiset{a[k]}
  {
    assert a == a[..k] + [a[k]] + a[k + 1..];
  }

  lemma FilesWithout(c: Config, a: seq<nat>, k: nat)
    requires InRange(c, a) && k < |a|
    ensures InRange(c, a[..k] + a[k + 1..])
    ensures multiset(Files(c, a)) == multiset(Files(c, a[..k] + a[k + 1..])) + multiset{c.suites[a[k]]}
  {
    var fs := Files(c, a);
    assert Files(c, a[..k] + a[k + 1..]) == fs[..k] + fs[k + 1..];
    Without(fs, k);
  }

  /** Naming a permutation of indices gives a permutation of names. */
  lemma {:induction false} FilesOfPermutation(c: Config, a: seq<nat>, b: seq<nat>)
    requires multiset(a) == multiset(b) && InRange(c, a) && InRange(c, b)
    ensures multiset(Files(c, a)) == multiset(Files(c, b))
  {
    hide Files;
    if a == [] {
      assert |multiset(b)| == 0;
    } else {
      assert a[0] in multiset(b);
      var k :| 0 <= k < |b| && b[k] == a[0];
      WithoutBoth(a, 0, b, k);
      FilesWithout(c, a, 0);
      FilesWithout(c, b, k);
      FilesOfPermutation(c, a[..0] + a[1..], b[..k] + b[k + 1..]);
    }
  }

  lemma WithoutBoth(a: seq<nat>, i: nat, b: seq<nat>, k: nat)
    requires i < |a| && k < |b| && a[i] == b[k] && multiset(a) == multiset(b)
    ensures multiset(a[..i] + a[i + 1..]) == multiset(b[..k] + b[k + 1..])
  {
    Without(a, i);
    Without(b, k);
    assert multiset(a[..i] + a[i + 1..]) == multiset(a) - multiset{a[i]};
    assert multiset(b[..k] + b[k + 1..]) == multiset(b) - multiset{b[k]};
  }

  lemma {:induction false} UptoIs(n: nat)
    ensures |Upto(n)| == n && forall k :: 0 <= k < n ==> Upto(n)[k] == k
  {
    if n > 0 {
      UptoIs(n - 1);
    }
  }

  lemma {:induction false} AllSucceed(rs: seq<SuiteResult>)
    ensures Successes(rs) <= |rs|
    ensures Successes(rs) == |rs| <==> forall r :: r in rs ==> r.success
  {
    if rs != [] {
      var front, last := rs[..|rs| - 1], rs[|rs| - 1];
      AllSucceed(front);
      assert forall r :: r in rs <==> r in front || r == last;
    }
  }

  /** When the runner is done, every chosen suite has run exactly once, the isolated one last; the counters add
      up; and the exit code is 0 exactly when every result is a success. */
  lemma FinalResults(c: Config, labels: seq<Label>)
    requires Exec(c, labels).Some? && Exec(c, labels).value.phase.Done? && c.numWorkers >= 1
    ensures var s := Exec(c, labels).value;
            && multiset(FileNames(PoolResults(c, s))) == multiset(c.suites)
            && (c.repo.Some? ==> s.results != [] && s.results[|s.results| - 1].file == c.repo.value
                                 && PoolResults(c, s) == s.results[..|s.results| - 1])
            && s.passed + s.failed == s.completed == |s.results| == |c.suites| + (if c.repo.Some? then 1 else 0)
            && s.phase.exitCode in {0, 1}
            && (s.phase.exitCode == 0 <==> forall r :: r in s.results ==> r.success)
  {
    RunInv(c, labels);
    NothingInFlightAfterJoin(c, labels);
    FinalState(c, Exec(c, labels).value);
  }

  lemma FinalState(c: Config, s: State)
    requires Inv(c, s) && s.phase.Done? && multiset(s.finished) == multiset(Upto(|c.suites|))
    ensures multiset(FileNames(PoolResults(c, s))) == multiset(c.suites)
    ensures |s.finished| == |c.suites|
    ensures s.phase.exitCode in {0, 1} && (s.phase.exitCode == 0 <==> forall r :: r in s.results ==> r.success)
  {
    hide Upto, Successes, PoolResults, Awaited, Claims;
    AllSucceed(s.results);
    var all := Upto(|c.suites|);
    UptoIs(|c.suites|);
    assert |multiset(s.finished)| == |multiset(all)|;
    assert InRange(c, s.finished) && InRange(c, all);
    FilesOfPermutation(c, s.finished, all);
    assert FileNames(PoolResults(c, s)) == Files(c, s.finished);
    assert Files(c, all) == c.suites;
  }

  lemma {:induction false} FilterCount(files: seq<string>)
    ensures |Filter(files, IsParallel)| + |Filter(files, IsRepoValidator)| == |files|
    ensures Find(files).Some? <==> |Filter(files, IsRepoValidator)| > 0
  {
    hide IsRepoValidator;
    if files != [] {
      FilterCount(files[1..]);
    }
  }

  /** The total the runner announces is reached exactly when at most one file is a repo validator: `find` takes the
      first, `filter` drops them all. */
  lemma TotalReached(files: seq<string>, cpus: nat, labels: seq<Label>)
    requires var c := Configure(files, cpus); Exec(c, labels).Some? && Exec(c, labels).value.phase.Done?
    ensures Exec(Configure(files, cpus), labels).value.completed == |files| <==> |Filter(files, IsRepoValidator)| <= 1
  {
    FilterCount(files);
    FinalResults(Configure(files, cpus), labels);
  }

  // ---------------------------------------------------------------- the exit code and the children

  /** Label `k` is the first event of the child of suite `i`. */
  ghost predicate IsFirstEvent(labels: seq<Label>, i: nat, k: nat) {
    && k < |labels| && labels[k].ChildEvent? && labels[k].i == i
    && forall j :: 0 <= j < k ==> !(labels[j].ChildEvent? && labels[j].i == i)
  }

  ghost predicate IsFirstRepoEvent(labels: seq<Label>, k: nat) {
    k < |labels| && labels[k].RepoEvent? && forall j :: 0 <= j < k ==> !labels[j].RepoEvent?
  }

  /** The first event of the child of suite `i` tells success or failure as `b` says. */
  ghost predicate Told(labels: seq<Label>, i: nat, b: bool) {
    exists k: nat :: IsFirstEvent(labels, i, k) && b == (labels[k].ev == Close(Some(0)))
  }

  ghost predicate RepoTold(labels: seq<Label>, b: bool) {
    exists k: nat :: IsFirstRepoEvent(labels, k) && b == (labels[k].ev == Close(Some(0)))
  }

  lemma ToldSnoc(front: seq<Label>, l: Label, i: nat, b: bool)
    ensures Told(front + [l], i, b) <==>
            || Told(front, i, b)
            || (l.ChildEvent? && l.i == i && b == (l.ev == Close(Some(0))) && forall c :: !Told(front, i, c))
  {
    var labels := front + [l];
    assert forall j :: 0 <= j < |front| ==> labels[j] == front[j];
    if Told(front, i, b) {
      var k: nat :| IsFirstEvent(front, i, k) && b == (front[k].ev == Close(Some(0)));
      assert IsFirstEvent(labels, i, k);
    }
    if l.ChildEvent? && l.i == i && b == (l.ev == Close(Some(0))) && forall c :: !Told(front, i, c) {
      NothingTold(front, i);
      assert IsFirstEvent(labels, i, |front|);
    }
    if Told(labels, i, b) {
      var k: nat :| IsFirstEvent(labels, i, k) && b == (labels[k].ev == Close(Some(0)));
      if k < |front| {
        assert IsFirstEvent(front, i, k);
      } else {
        forall c
          ensures !Told(front, i, c)
        {
        }
      }
    }
  }

  lemma NothingTold(labels: seq<Label>, i: nat)
    requires forall c :: !Told(labels, i, c)
    ensures forall j :: 0 <= j < |labels| ==> !(labels[j].ChildEvent? && labels[j].i == i)
  {
    if j :| 0 <= j < |labels| && labels[j].ChildEvent? && labels[j].i == i {
      SomethingTold(labels, i, j);
    }
  }

  lemma SomethingTold(labels: seq<Label>, i: nat, j: nat)
    requires j < |labels| && labels[j].ChildEvent? && labels[j].i == i
    ensures exists c :: Told(labels, i, c)
  {
    var k := FirstOf(labels, i, j);
    assert Told(labels, i, labels[k].ev == Close(Some(0)));
  }

  lemma {:induction false} FirstOf(labels: seq<Label>, i: nat, j: nat) returns (k: nat)
    requires j < |labels| && labels[j].ChildEvent? && labels[j].i == i
    ensures IsFirstEvent(labels, i, k)
    decreases j
  {
    if m :| 0 <= m < j && labels[m].ChildEvent? && labels[m].i == i {
      k := FirstOf(labels, i, m);
    } else {
      k := j;
    }
  }

  lemma RepoToldSnoc(front: seq<Label>, l: Label, b: bool)
    ensures RepoTold(front + [l], b) <==>
            || RepoTold(front, b)
            || (l.RepoEvent? && b == (l.ev == Close(Some(0))) && forall c :: !RepoTold(front, c))
  {
    var labels := front + [l];
    assert forall j :: 0 <= j < |front| ==> labels[j] == front[j];
    if RepoTold(front, b) {
      var k: nat :| IsFirstRepoEvent(front, k) && b == (front[k].ev == Close(Some(0)));
      assert IsFirstRepoEvent(labels, k);
    }
    if l.RepoEvent? && b == (l.ev == Close(Some(0))) && forall c :: !RepoTold(front, c) {
      NothingRepoTold(front);
      assert IsFirstRepoEvent(labels, |front|);
    }
    if RepoTold(labels, b) {
      var k: nat :| IsFirstRepoEvent(labels, k) && b == (labels[k].ev == Close(Some(0)));
      if k < |front| {
        assert IsFirstRepoEvent(front, k);
      }
    }
  }

  lemma NothingRepoTold(labels: seq<Label>)
    requires forall c :: !RepoTold(labels, c)
    ensures forall j :: 0 <= j < |labels| ==> !labels[j].RepoEvent?
  {
    if j :| 0 <= j < |labels| && labels[j].RepoEvent? {
      SomethingRepoTold(labels, j);
    }
  }

  lemma SomethingRepoTold(labels: seq<Label>, j: nat)
    requires j < |labels| && labels[j].RepoEvent?
    ensures exists c :: RepoTold(labels, c)
  {
    var k := FirstRepoOf(labels, j);
    assert RepoTold(labels, labels[k].ev == Close(Some(0)));
  }

  lemma {:induction false} FirstRepoOf(labels: seq<Label>, j: nat) returns (k: nat)
    requires j < |labels| && labels[j].RepoEvent?
    ensures IsFirstRepoEvent(labels, k)
    decreases j
  {
    if m :| 0 <= m < j && labels[m].RepoEvent? {
      k := FirstRepoOf(labels, m);
    } else {
      k := j;
    }
  }

  /** What the state remembers of the children is what their first events told, and nothing has been told of a child
      that has not been spawned. */
  ghost predicate Hears(s: State, labels: seq<Label>) {
    && (forall i: nat, b :: i < |s.children| ==> (s.children[i] == Some(b) <==> Told(labels, i, b)))
    && (forall i: nat, b :: i >= |s.children| ==> !Told(labels, i, b))
  }

  lemma HearsStep(c: Config, s: State, labels: seq<Label>, l: Label)
    requires Hears(s, labels) && Apply(c, s, l).Some?
    ensures Hears(Apply(c, s, l).value, labels + [l])
  {
    hide Told;
    var s' := Apply(c, s, l).value;
    forall i: nat, b
      ensures i < |s'.children| ==> (s'.children[i] == Some(b) <==> Told(labels + [l], i, b))
      ensures i >= |s'.children| ==> !Told(labels + [l], i, b)
    {
      ToldSnoc(labels, l, i, b);
      if i < |s.children| && s.children[i].Some? {
        assert Told(labels, i, s.children[i].value);
      }
    }
  }

  /** In every run: the promise of a spawned child is settled exactly when the child has reported, as a success exactly
      when the first thing it reported is that it closed with code 0. */
  lemma {:induction false} ChildrenAreHeard(c: Config, labels: seq<Label>)
    requires Exec(c, labels).Some?
    ensures Hears(Exec(c, labels).value, labels)
  {
    hide Apply, Hears;
    if labels == [] {
      NothingHeard(c);
    } else {
      var front, l := labels[..|labels| - 1], labels[|labels| - 1];
      ChildrenAreHeard(c, front);
      HearsStep(c, Exec(c, front).value, front, l);
      assert front + [l] == labels;
    }
  }

  lemma NothingHeard(c: Config)
    ensures Hears(Init(c), [])
  {
  }

  /** The same for the isolated suite, up to its result. */
  ghost predicate HearsRepo(c: Config, s: State, labels: seq<Label>) {
    match s.phase
    case Pooling => forall b :: !RepoTold(labels, b)
    case RepoRunning(settled) => forall b :: settled == Some(b) <==> RepoTold(labels, b)
    case Done(_) =>
      c.repo.Some? ==> s.results != [] && forall b :: s.results[|s.results| - 1].success == b <==> RepoTold(labels, b)
  }

  lemma HearsRepoStep(c: Config, s: State, labels: seq<Label>, l: Label)
    requires HearsRepo(c, s, labels) && Apply(c, s, l).Some? && (s.phase.RepoRunning? ==> c.repo.Some?)
    ensures HearsRepo(c, Apply(c, s, l).value, labels + [l])
  {
    hide RepoTold;
    forall b
      ensures RepoTold(labels + [l], b) <==>
              || RepoTold(labels, b)
              || (l.RepoEvent? && b == (l.ev == Close(Some(0))) && forall c :: !RepoTold(labels, c))
    {
      RepoToldSnoc(labels, l, b);
    }
    if s.phase.RepoRunning? && s.phase.settled.Some? {
      assert RepoTold(labels, s.phase.settled.value);
    }
  }

  lemma {:induction false} RepoIsHeard(c: Config, labels: seq<Label>)
    requires Exec(c, labels).Some?
    ensures HearsRepo(c, Exec(c, labels).value, labels)
  {
    hide Apply, HearsRepo, Inv;
    if labels == [] {
      NoRepoHeard(c);
    } else {
      var front, l := labels[..|labels| - 1], labels[|labels| - 1];
      RepoIsHeard(c, front);
      RunInv(c, front);
      RepoPhase(c, Exec(c, front).value);
      HearsRepoStep(c, Exec(c, front).value, front, l);
      assert front + [l] == labels;
    }
  }

  lemma NoRepoHeard(c: Config)
    ensures HearsRepo(c, Init(c), [])
  {
  }

  lemma RepoPhase(c: Config, s: State)
    requires Inv(c, s)
    ensures s.phase.RepoRunning? ==> c.repo.Some?
  {
    hide Claims, Counts;
  }

  /** The first report of every suite, the isolated one included, was that it closed with code 0. */
  ghost predicate AllClosedWell(c: Config, labels: seq<Label>) {
    && (forall i: nat :: i < |c.suites| ==> Told(labels, i, true))
    && (c.repo.Some? ==> RepoTold(labels, true))
  }

  /** The runner exits with 0 exactly when the first report of every suite was that it closed with code 0. */
  lemma ExitsWellExactly(c: Config, labels: seq<Label>)
    requires Exec(c, labels).Some? && Exec(c, labels).value.phase.Done? && c.numWorkers >= 1
    ensures Exec(c, labels).value.phase.exitCode == 0 <==> AllClosedWell(c, labels)
  {
    hide Exec, Told, RepoTold, Awaited, Upto, Successes, PoolResults;
    RunInv(c, labels);
    FinalResults(c, labels);
    NothingInFlightAfterJoin(c, labels);
    ChildrenAreHeard(c, labels);
    RepoIsHeard(c, labels);
    var s := Exec(c, labels).value;
    PoolSuccess(c, s);
    ResultsSplit(c, s);
    forall i: nat | i < |c.suites|
      ensures Told(labels, i, true) <==> s.children[i] == Some(true)
    {
    }
  }

  lemma ResultsSplit(c: Config, s: State)
    requires s.phase.Done? && (c.repo.Some? ==> s.results != [])
    ensures (forall r :: r in s.results ==> r.success) <==>
            && (forall r :: r in PoolResults(c, s) ==> r.success)
            && (c.repo.Some? ==> s.results[|s.results| - 1].success)
  {
    if c.repo.Some? {
      assert s.results == s.results[..|s.results| - 1] + [s.results[|s.results| - 1]];
    }
  }

  /** All results of the pool are successes exactly when all children were. */
  lemma PoolSuccess(c: Config, s: State)
    requires Counts(c, s) && multiset(s.finished) == multiset(Upto(|c.suites|)) && |s.children| == |c.suites|
    ensures (forall r :: r in PoolResults(c, s) ==> r.success) <==>
            forall i :: 0 <= i < |c.suites| ==> s.children[i] == Some(true)
  {
    hide Upto, Successes, PoolResults;
    var rs := PoolResults(c, s);
    UptoIs(|c.suites|);
    if forall r :: r in rs ==> r.success {
      forall i | 0 <= i < |c.suites|
        ensures s.children[i] == Some(true)
      {
        var k := FinishedAt(c, s, i);
        assert rs[k] in rs;
      }
    }
    if forall i :: 0 <= i < |c.suites| ==> s.children[i] == Some(true) {
      forall r | r in rs
        ensures r.success
      {
        var k :| 0 <= k < |rs| && rs[k] == r;
        assert s.children[s.finished[k]] == Some(rs[k].success);
      }
    }
  }

  lemma FinishedAt(c: Config, s: State, i: nat) returns (k: nat)
    requires multiset(s.finished) == multiset(Upto(|c.suites|)) && i < |c.suites|
    ensures k < |s.finished| && s.finished[k] == i
  {
    UptoIs(|c.suites|);
    assert Upto(|c.suites|)[i] == i;
    assert i in multiset(s.finished);
    k :| k < |s.finished| && s.finished[k] == i;
  }

  // ---------------------------------------------------------------- progress

  function IdleCount(ws: seq<Worker>): nat {
    if ws == [] then 0 else (if ws[0] == Idle then 1 else 0) + IdleCount(ws[1..])
  }

  /** What is left to do in the pool. */
  function Remaining(c: Config, s: State): int {
    2 * (|c.suites| - s.nextIndex) + |Awaited(s.workers)| + IdleCount(s.workers)
  }

  lemma {:induction false} CountsUpdate(ws: seq<Worker>, w: nat, x: Worker)
    requires w < |ws|
    ensures |Awaited(ws[w := x])| == |Awaited(ws)| + (if x.Awaiting? then 1 else 0) - (if ws[w].Awaiting? then 1 else 0)
    ensures IdleCount(ws[w := x]) == IdleCount(ws) + (if x == Idle then 1 else 0) - (if ws[w] == Idle then 1 else 0)
  {
    var ws' := ws[w := x];
    if w == 0 {
      assert ws'[1..] == ws[1..];
    } else {
      assert ws'[1..] == ws[1..][w - 1 := x];
      CountsUpdate(ws[1..], w - 1, x);
    }
  }

  /** Every turn of a worker makes the rest of the pool's work strictly smaller, and an event never adds to it. */
  lemma TurnsDecrease(c: Config, s: State, l: Label)
    requires Inv(c, s) && Apply(c, s, l).Some?
    ensures Remaining(c, s) >= 0
    ensures var r := Remaining(c, Apply(c, s, l).value);
            if l.Launch? || l.Resume? then r < Remaining(c, s) else r == Remaining(c, s)
  {
    if l.Launch? || l.Resume? {
      CountsUpdate(s.workers, l.w, if s.nextIndex < |c.suites| then Awaiting(s.nextIndex) else Exited);
    }
  }

  /** How often a run gives control to a worker. */
  function Turns(labels: seq<Label>): nat {
    if labels == [] then 0
    else Turns(labels[..|labels| - 1]) + if labels[|labels| - 1].Launch? || labels[|labels| - 1].Resume? then 1 else 0
  }

  /** Where in the run a worker has its turn. */
  ghost function TurnsAt(labels: seq<Label>): set<nat> {
    set j: nat | j < |labels| && (labels[j].Launch? || labels[j].Resume?)
  }

  lemma {:induction false} TurnsCount(labels: seq<Label>)
    ensures |TurnsAt(labels)| == Turns(labels)
  {
    if labels != [] {
      var n := |labels| - 1;
      var front := labels[..n];
      TurnsCount(front);
      assert n !in TurnsAt(front);
      var last: set<nat> := if labels[n].Launch? || labels[n].Resume? then {n} else {};
      assert TurnsAt(labels) == TurnsAt(front) + last;
    }
  }

  lemma {:induction false} AllIdle(ws: seq<Worker>)
    requires forall w :: 0 <= w < |ws| ==> ws[w] == Idle
    ensures IdleCount(ws) == |ws| && Awaited(ws) == []
  {
    if ws != [] {
      AllIdle(ws[1..]);
    }
  }

  /** No run has more turns than twice the suites plus the workers. */
  lemma {:induction false} TurnsBounded(c: Config, labels: seq<Label>)
    requires Exec(c, labels).Some?
    ensures Turns(labels) + Remaining(c, Exec(c, labels).value) <= 2 * |c.suites| + c.numWorkers
    ensures |TurnsAt(labels)| <= 2 * |c.suites| + c.numWorkers
  {
    hide Apply, Inv, Remaining;
    RunInv(c, labels);
    TurnsCount(labels);
    if labels == [] {
      InitialWork(c);
    } else {
      var front, l := labels[..|labels| - 1], labels[|labels| - 1];
      TurnsBounded(c, front);
      RunInv(c, front);
      TurnsDecrease(c, Exec(c, front).value, l);
    }
    NothingOwed(c, Exec(c, labels).value);
  }

  lemma InitialWork(c: Config)
    ensures Remaining(c, Init(c)) == 2 * |c.suites| + c.numWorkers
  {
    AllIdle(Init(c).workers);
  }

  lemma NothingOwed(c: Config, s: State)
    requires Inv(c, s)
    ensures Remaining(c, s) >= 0
  {
  }

  /** The runner never stalls by itself: until it is done, some label other than a child event is possible, or a
      child it waits for has not reported yet. */
  lemma NeverStuck(c: Config, labels: seq<Label>)
    requires Exec(c, labels).Some? && !Exec(c, labels).value.phase.Done?
    ensures var s := Exec(c, labels).value;
            || (exists w: nat :: Apply(c, s, Launch(w)).Some?)
            || (exists w: nat :: Apply(c, s, Resume(w)).Some?)
            || (exists w: nat :: && w < |s.workers| && s.workers[w].Awaiting? && s.workers[w].index < |s.children|
                                 && s.children[s.workers[w].index].None?)
            || Apply(c, s, Join).Some?
            || Apply(c, s, RepoResume).Some?
            || s.phase == RepoRunning(None)
  {
    hide Exec, Awaited, Claim, Record, Successes, Upto;
    RunInv(c, labels);
    var s := Exec(c, labels).value;
    if s.phase == Pooling && exists w: nat :: w < |s.workers| && s.workers[w] != Exited {
      var w: nat :| w < |s.workers| && s.workers[w] != Exited;
      if s.workers[w] == Idle {
        assert Apply(c, s, Launch(w)).Some?;
      } else {
        AwaitedIsClaimed(c, s, w);
        if s.children[s.workers[w].index].Some? {
          assert Apply(c, s, Resume(w)).Some?;
        }
      }
    }
  }

  /** A second event of the same child changes nothing. */
  lemma SecondEventIgnored(c: Config, s: State, i: nat, first: Event, second: Event)
    requires i < |s.children|
    ensures var s1 := Apply(c, s, ChildEvent(i, first)).value;
            Apply(c, s1, ChildEvent(i, second)) == Some(s1)
  {
    var s1 := Apply(c, s, ChildEvent(i, first)).value;
    assert s1.children[i := Settle(s1.children[i], second)] == s1.children;
  }

  // ---------------------------------------------------------------- the program

  lemma ExecSnoc(c: Config, labels: seq<Label>, l: Label)
    requires Exec(c, labels).Some?
    ensures Exec(c, labels + [l]) == Apply(c, Exec(c, labels).value, l)
  {
    assert (labels + [l])[..|labels|] == labels;
  }

  /** The variables of `main` that the workers share. Each method runs without interruption. */
  class Runner {
    const config: Config
    var nextIndex: nat
    var children: seq<Option<bool>>
    var workers: seq<Worker>
    var results: seq<SuiteResult>
    var completed: nat
    var passedCount: nat
    var failedCount: nat
    var phase: Phase
    ghost var finished: seq<nat>
    /** What has happened so far. */
    ghost var history: seq<Label>

    ghost function View(): State
      reads this
    {
      State(nextIndex, children, workers, finished, results, completed, passedCount, failedCount, phase)
    }

    /** The variables are what the history makes of them. */
    ghost predicate Valid()
      reads this
    {
      Exec(config, history) == Some(View())
    }

    constructor (config: Config)
      ensures Valid() && this.config == config && history == []
    {
      this.config := config;
      nextIndex, children, workers := 0, [], seq(config.numWorkers, _ => Idle);
      results, completed, passedCount, failedCount := [], 0, 0, 0;
      phase, finished, history := Pooling, [], [];
    }

    predicate Resolved(i: nat)
      reads this
    {
      i < |children| && children[i].Some?
    }

    /** The head of the worker's loop, up to the `await` or the end of the worker. */
    method ClaimNext(w: nat)
      requires w < |workers|
      modifies this`nextIndex, this`children, this`workers
      ensures View() == Claim(config, old(View()), w)
    {
      if nextIndex < |config.suites| {
        var currentIndex := nextIndex;
        nextIndex := nextIndex + 1;
        children := children + [None];
        workers := workers[w := Awaiting(currentIndex)];
      } else {
        workers := workers[w := Exited];
      }
    }

    method Push(file: string, success: bool)
      modifies this`results, this`completed, this`passedCount, this`failedCount
      ensures View() == Record(old(View()), file, success)
    {
      results := results + [SuiteResult(file, success)];
      completed := completed + 1;
      if success {
        passedCount := passedCount + 1;
      } else {
        failedCount := failedCount + 1;
      }
    }

    method LaunchWorker(w: nat)
      requires Valid() && phase == Pooling && w < |workers| && workers[w] == Idle
      modifies this
      ensures Valid() && history == old(history) + [Launch(w)]
    {
      hide Exec, Claim;
      ExecSnoc(config, history, Launch(w));
      history := history + [Launch(w)];
      ClaimNext(w);
    }

    /** `close` or `error` of the child of suite `i`: the first one resolves the promise. */
    method OnChildEvent(i: nat, ev: Event)
      requires Valid() && i < |children|
      modifies this`children, this`history
      ensures Valid() && history == old(history) + [ChildEvent(i, ev)]
      ensures |children| == |old(children)|
      ensures forall j :: 0 <= j < |children| && j != i ==> children[j] == old(children)[j]
      ensures old(children)[i].None? ==> children[i] == Some(ev == Close(Some(0)))
      ensures old(children)[i].Some? ==> children[i] == old(children)[i]
    {
      hide Exec;
      ExecSnoc(config, history, ChildEvent(i, ev));
      history := history + [ChildEvent(i, ev)];
      assert children[i := children[i]] == children;
      if children[i].None? {
        children := children[i := Some(Succeeds(ev))];
      }
    }

    /** What follows the `await`: record, count, and go round the loop. */
    method ResumeWorker(w: nat)
      requires Valid() && w < |workers| && workers[w].Awaiting? && Resolved(workers[w].index)
      modifies this
      ensures Valid() && history == old(history) + [Resume(w)]
    {
      hide Exec, Claim, Record;
      AwaitingFacts(w);
      ExecSnoc(config, history, Resume(w));
      history := history + [Resume(w)];
      var i := workers[w].index;
      Push(config.suites[i], children[i].value);
      finished := finished + [i];
      ClaimNext(w);
    }

    /** A worker that awaits a suite awaits a claimed one, and the pool is still on. */
    lemma AwaitingFacts(w: nat)
      requires Valid() && w < |workers| && workers[w].Awaiting?
      ensures phase == Pooling && workers[w].index < |children| <= |config.suites|
    {
      hide Exec;
      RunInv(config, history);
      AwaitedIsClaimed(config, View(), w);
    }

    /** All workers have returned: run the isolated suite if there is one. */
    method AfterJoin()
      requires Valid() && phase == Pooling && forall w :: 0 <= w < |workers| ==> workers[w] == Exited
      modifies this`phase, this`history
      ensures Valid() && history == old(history) + [Join]
    {
      hide Exec;
      ExecSnoc(config, history, Join);
      history := history + [Join];
      if config.repo.Some? {
        phase := RepoRunning(None);
      } else {
        phase := Done(if failedCount == 0 then 0 else 1);
      }
    }

    method OnRepoEvent(ev: Event)
      requires Valid() && phase.RepoRunning?
      modifies this`phase, this`history
      ensures Valid() && history == old(history) + [RepoEvent(ev)]
      ensures phase == if old(phase.settled).None? then RepoRunning(Some(ev == Close(Some(0)))) else old(phase)
    {
      hide Exec;
      ExecSnoc(config, history, RepoEvent(ev));
      history := history + [RepoEvent(ev)];
      if phase.settled.None? {
        phase := RepoRunning(Some(Succeeds(ev)));
      }
    }

    method ResumeAfterRepo()
      requires Valid() && phase.RepoRunning? && phase.settled.Some?
      modifies this
      ensures Valid() && history == old(history) + [RepoResume]
    {
      hide Exec, Record;
      RepoFacts();
      ExecSnoc(config, history, RepoResume);
      history := history + [RepoResume];
      Push(config.repo.value, phase.settled.value);
      phase := Done(if failedCount == 0 then 0 else 1);
    }

    lemma RepoFacts()
      requires Valid() && phase.RepoRunning?
      ensures config.repo.Some?
    {
      hide Exec;
      RunInv(config, history);
    }

    /** What the program holds when it exits, whatever happened in between. */
    lemma ExitFacts()
      requires Valid() && phase.Done? && config.numWorkers >= 1
      ensures passedCount + failedCount == completed == |results|
      ensures |results| == |config.suites| + if config.repo.Some? then 1 else 0
      ensures config.repo.Some? ==> results[|results| - 1].file == config.repo.value
      ensures multiset(FileNames(if config.repo.Some? then results[..|results| - 1] else results)) ==
              multiset(config.suites)
      ensures phase.exitCode in {0, 1} && (phase.exitCode == 0 <==> forall r :: r in results ==> r.success)
      ensures phase.exitCode == 0 <==> AllClosedWell(config, history)
    {
      hide Exec, AllClosedWell;
      FinalResults(config, history);
      ExitsWellExactly(config, history);
    }
  }
}
