/** Setting the ADI library up for a request: the emulator build remembers what
    it last told ADI, the macOS build tells ADI again every time. */
module Setup {
  import opened Words
  import opened VmState
  import opened Identifiers

  /** What the ADI library holds: each setter's last accepted argument. */
  datatype Adi = Adi(path: Option<string>, androidId: Option<string>)

  datatype Request = Request(libDir: Option<string>, provisioningDir: string, identifier: Identifier)

  /** How the world answers the foreign calls a request may make.  A result
      other than zero is a refusal, and a refused setter changes nothing.  The
      spans are how much of the library range the two libraries take. */
  datatype Answers = Answers(
    isDirectory: bool, sscLoads: bool, sscSpan: nat, coreLoads: bool, coreSpan: nat,
    loaderFound: bool, loaderResult: int,
    pathSetterFound: bool, pathResult: int,
    idSetterFound: bool, idResult: int)

  datatype Error =
    | NoDirectory | NotADirectory | LoadFailed
    | SymbolMissing | LoaderRefused(code: int)
    | PathSetterMissing | PathRefused(code: int)
    | IdSetterMissing | IdRefused(code: int)

  datatype Result = Ready(path: string) | Failed(error: Error)

  function Wanted(req: Request): Adi {
    Adi(Some(ProvisioningPath(req.provisioningDir, req.identifier)), Some(AndroidId(req.identifier)))
  }

  // The first steps ---------------------------------------------------------------------------------

  /** What stops a request before the setters; `loaded` says whether the libraries are up. */
  function Obstacle(loaded: bool, req: Request, ans: Answers): Option<Error> {
    if req.libDir.None? then Some(NoDirectory)
    else if !ans.isDirectory then Some(NotADirectory)
    else if loaded then None
    else if !ans.sscLoads || !ans.coreLoads then Some(LoadFailed)
    else if !ans.loaderFound then Some(SymbolMissing)
    else if ans.loaderResult != 0 then Some(LoaderRefused(ans.loaderResult))
    else None
  }

  /** How much of the library range a request takes: it loads the libraries again
      as long as no attempt has succeeded, and the range is never given back. */
  function Takes(loaded: bool, req: Request, ans: Answers): nat {
    if req.libDir.None? || !ans.isDirectory || loaded || !ans.sscLoads then 0
    else if !ans.coreLoads then ans.sscSpan
    else ans.sscSpan + ans.coreSpan
  }

  // The emulator build ----------------------------------------------------------------------------------

  /** The globals `g_libraries_initialized`, `g_current_prov_path` and
      `g_current_android_id`, the library they describe, and the library range used. */
  datatype CachedState = CachedState(initialized: bool, path: string, androidId: string, adi: Adi, used: nat)

  /** A request; the process ends when the library range is used up. */
  function Cached(st: CachedState, req: Request, ans: Answers): Outcome<(CachedState, Result)> {
    var used := st.used + Takes(st.initialized, req, ans);
    if used > st.used && used > LIBRARY_SIZE then Abort
    else Continue(Serve(st.(used := used), req, ans))
  }

  function Serve(st: CachedState, req: Request, ans: Answers): (CachedState, Result) {
    match Obstacle(st.initialized, req, ans)
    case Some(e) => (st, Failed(e))
    case None =>
      var st1 := st.(initialized := true);
      var path := ProvisioningPath(req.provisioningDir, req.identifier);
      if path != st.path && !ans.pathSetterFound then (st1, Failed(PathSetterMissing))
      else if path != st.path && ans.pathResult != 0 then (st1, Failed(PathRefused(ans.pathResult)))
      else
        var st2 := if path != st.path then st1.(path := path, adi := st1.adi.(path := Some(path))) else st1;
        var id := AndroidId(req.identifier);
        if id != st.androidId && !ans.idSetterFound then (st2, Failed(IdSetterMissing))
        else if id != st.androidId && ans.idResult != 0 then (st2, Failed(IdRefused(ans.idResult)))
        else
          var st3 := if id != st.androidId then st2.(androidId := id, adi := st2.adi.(androidId := Some(id))) else st2;
          (st3, Ready(path))
  }

  class EmulatorSetup {
    var librariesInitialized: bool
    var currentPath: string
    var currentAndroidId: string
    var adi: Adi
    var libraryUsed: nat

    function View(): CachedState
      reads this
    {
      CachedState(librariesInitialized, currentPath, currentAndroidId, adi, libraryUsed)
    }

    constructor ()
      ensures View() == FRESH
    {
      librariesInitialized, currentPath, currentAndroidId, libraryUsed := false, "", "", 0;
      adi := Adi(None, None);
    }

    /** The bump allocator's answer to one library. */
    method Take(span: nat) returns (r: Outcome<()>)
      modifies this`libraryUsed
      ensures r.Abort? <==> span > 0 && old(libraryUsed) + span > LIBRARY_SIZE
      ensures r.Continue? ==> libraryUsed == old(libraryUsed) + span
    {
      if span > 0 && libraryUsed + span > LIBRARY_SIZE {
        return Abort;
      }
      libraryUsed := libraryUsed + span;
      return Continue(());
    }

    /** Loading the libraries and calling their own loader, until that has succeeded once. */
    method BringUp(ans: Answers) returns (r: Outcome<Option<Error>>)
      requires !librariesInitialized
      modifies this`libraryUsed, this`librariesInitialized
      ensures var taken :=
                if !ans.sscLoads then 0 else if !ans.coreLoads then ans.sscSpan else ans.sscSpan + ans.coreSpan;
              && (r.Abort? <==> taken > 0 && old(libraryUsed) + taken > LIBRARY_SIZE)
              && (r.Continue? ==>
                    && libraryUsed == old(libraryUsed) + taken
                    && librariesInitialized == r.value.None?
                    && r.value == if !ans.sscLoads || !ans.coreLoads then Some(LoadFailed)
                                  else if !ans.loaderFound then Some(SymbolMissing)
                                  else if ans.loaderResult != 0 then Some(LoaderRefused(ans.loaderResult))
                                  else None)
    {
      if !ans.sscLoads {
        return Continue(Some(LoadFailed));
      }
      var _ :- Take(ans.sscSpan);
      if !ans.coreLoads {
        return Continue(Some(LoadFailed));
      }
      var _ :- Take(ans.coreSpan);
      if !ans.loaderFound {
        return Continue(Some(SymbolMissing));
      }
      if ans.loaderResult != 0 {
        return Continue(Some(LoaderRefused(ans.loaderResult)));
      }
      librariesInitialized := true;
      return Continue(None);
    }

    /** `setup_vm_and_adi`. */
    method SetUp(req: Request, ans: Answers) returns (r: Outcome<Result>)
      modifies this
      ensures match Cached(old(View()), req, ans)
              case Abort => r.Abort?
              case Continue((after, result)) => r == Continue(result) && View() == after
    {
      hide AndroidId, ProvisioningPath;
      if req.libDir.None? {
        return Continue(Failed(NoDirectory));
      }
      if !ans.isDirectory {
        return Continue(Failed(NotADirectory));
      }
      if !librariesInitialized {
        var obstacle :- BringUp(ans);
        if obstacle.Some? {
          return Continue(Failed(obstacle.value));
        }
      }
      r := TellAdi(req, ans);
    }

    /** The two setters, each called only when its value is not the remembered one. */
    method TellAdi(req: Request, ans: Answers) returns (r: Outcome<Result>)
      requires librariesInitialized && Obstacle(true, req, ans).None?
      modifies this
      ensures r.Continue? && (View(), r.value) == Serve(old(View()), req, ans)
    {
      var path := ProvisioningPath(req.provisioningDir, req.identifier);
      if path != currentPath {
        if !ans.pathSetterFound {
          return Continue(Failed(PathSetterMissing));
        }
        if ans.pathResult != 0 {
          return Continue(Failed(PathRefused(ans.pathResult)));
        }
        adi := adi.(path := Some(path));
        currentPath := path;
      }
      var id := AndroidId(req.identifier);
      if id != currentAndroidId {
        if !ans.idSetterFound {
          return Continue(Failed(IdSetterMissing));
        }
        if ans.idResult != 0 {
          return Continue(Failed(IdRefused(ans.idResult)));
        }
        adi := adi.(androidId := Some(id));
        currentAndroidId := id;
      }
      return Continue(Ready(path));
    }
  }

  const FRESH := CachedState(false, "", "", Adi(None, None), 0)

  // The macOS build ---------------------------------------------------------------------------------------

  datatype PlainState = PlainState(loaded: bool, adi: Adi)

  function Plain(st: PlainState, req: Request, ans: Answers): (PlainState, Result) {
    match Obstacle(st.loaded, req, ans)
    case Some(e) => (st, Failed(e))
    case None =>
      var st1 := st.(loaded := true);
      var path := ProvisioningPath(req.provisioningDir, req.identifier);
      if !ans.pathSetterFound then (st1, Failed(PathSetterMissing))
      else if ans.pathResult != 0 then (st1, Failed(PathRefused(ans.pathResult)))
      else
        var st2 := st1.(adi := st1.adi.(path := Some(path)));
        if !ans.idSetterFound then (st2, Failed(IdSetterMissing))
        else if ans.idResult != 0 then (st2, Failed(IdRefused(ans.idResult)))
        else (st2.(adi := Wanted(req)), Ready(path))
  }

  class MacSetup {
    /** Whether `g_ssc` and `g_adi` hold loaded libraries. */
    var ssc: bool
    var core: bool
    var adi: Adi

    predicate Valid()
      reads this
    {
      core ==> ssc
    }

    function View(): PlainState
      reads this
    {
      PlainState(core, adi)
    }

    constructor ()
      ensures Valid() && View() == FRESH_PLAIN
    {
      ssc, core := false, false;
      adi := Adi(None, None);
    }

    /** `load_adi_and_setup`: a failure while loading drops both libraries again. */
    method SetUp(req: Request, ans: Answers) returns (r: Result)
      requires Valid()
      modifies this
      ensures Valid()
      ensures (View(), r) == Plain(old(View()), req, ans)
    {
      if req.libDir.None? {
        return Failed(NoDirectory);
      }
      if !ans.isDirectory {
        return Failed(NotADirectory);
      }
      if !core {
        ssc := true;
        if !ans.sscLoads {
          ssc := false;
          return Failed(LoadFailed);
        }
        core := true;
        if !ans.coreLoads {
          ssc, core := false, false;
          return Failed(LoadFailed);
        }
        if !ans.loaderFound {
          ssc, core := false, false;
          return Failed(SymbolMissing);
        }
        if ans.loaderResult != 0 {
          ssc, core := false, false;
          return Failed(LoaderRefused(ans.loaderResult));
        }
      }
      var path := ProvisioningPath(req.provisioningDir, req.identifier);
      if !ans.pathSetterFound {
        return Failed(PathSetterMissing);
      }
      if ans.pathResult != 0 {
        return Failed(PathRefused(ans.pathResult));
      }
      adi := adi.(path := Some(path));
      if !ans.idSetterFound {
        return Failed(IdSetterMissing);
      }
      var id := AndroidId(req.identifier);
      if ans.idResult != 0 {
        return Failed(IdRefused(ans.idResult));
      }
      adi := adi.(androidId := Some(id));
      return Ready(path);
    }
  }

  const FRESH_PLAIN := PlainState(false, Adi(None, None))

  // Runs ------------------------------------------------------------------------------------------------------

  datatype Call = Call(req: Request, ans: Answers)

  /** The state after a sequence of requests, whatever each one returned. */
  function RunCached(calls: seq<Call>): Outcome<CachedState> {
    if calls == [] then Continue(FRESH)
    else
      var last := calls[|calls| - 1];
      var st :- RunCached(calls[..|calls| - 1]);
      var (after, _) :- Cached(st, last.req, last.ans);
      Continue(after)
  }

  function RunPlain(calls: seq<Call>): PlainState {
    if calls == [] then FRESH_PLAIN
    else
      var last := calls[|calls| - 1];
      Plain(RunPlain(calls[..|calls| - 1]), last.req, last.ans).0
  }

  /** The cache tells the truth: a remembered value is what ADI holds.  The
      empty cache says only that ADI was never told of a device. */
  ghost predicate Truthful(st: CachedState) {
    && (if st.path != "" then st.adi.path == Some(st.path) else st.adi.path == None)
    && (if st.androidId != "" then st.adi.androidId == Some(st.androidId)
        else st.adi.androidId == None || st.adi.androidId == Some(""))
  }

  lemma CachedKeepsTruth(st: CachedState, req: Request, ans: Answers)
    requires Truthful(st) && Cached(st, req, ans).Continue?
    ensures Truthful(Cached(st, req, ans).value.0)
  {
    assert |ProvisioningPath(req.provisioningDir, req.identifier)| > 0;
  }

  lemma {:induction false} RunTruthful(calls: seq<Call>)
    requires RunCached(calls).Continue?
    ensures Truthful(RunCached(calls).value)
  {
    hide Cached, Truthful;
    if calls != [] {
      var last := calls[|calls| - 1];
      RunTruthful(calls[..|calls| - 1]);
      CachedKeepsTruth(RunCached(calls[..|calls| - 1]).value, last.req, last.ans);
    } else {
      FreshTruthful();
    }
  }

  lemma FreshTruthful()
    ensures Truthful(FRESH)
  {
  }

  /** Main result: after any sequence of requests, a request that succeeds
      leaves ADI holding its path, and holding its Android id exactly when the
      identifier is not null or ADI had been given an id before. */
  lemma SuccessSetsAdi(calls: seq<Call>, req: Request, ans: Answers)
    requires RunCached(calls).Continue?
    requires var c := Cached(RunCached(calls).value, req, ans); c.Continue? && c.value.1.Ready?
    ensures var (after, r) := Cached(RunCached(calls).value, req, ans).value;
            && r.path == ProvisioningPath(req.provisioningDir, req.identifier)
            && after.adi.path == Some(r.path)
            && (after.adi == Wanted(req) <==>
                req.identifier.Some? || RunCached(calls).value.adi.androidId.Some?)
  {
    RunTruthful(calls);
    EmptyNames(req.identifier);
    hide Uuid, AndroidId, RunCached;
    assert |ProvisioningPath(req.provisioningDir, req.identifier)| > 0;
  }

  const WILLING := Answers(true, true, 0, true, 0, true, 0, true, 0, true, 0)

  /** A null identifier in the first request is accepted without ADI being told its id,
      where the macOS build would tell it the empty one. */
  lemma NullIdentifierNotSet(dir: string, provisioningDir: string)
    ensures var req := Request(Some(dir), provisioningDir, None);
            var (after, r) := Serve(FRESH, req, WILLING);
            && Cached(FRESH, req, WILLING) == Continue((after, r)) && r == Plain(FRESH_PLAIN, req, WILLING).1
            && after.adi.androidId == None
            && Plain(FRESH_PLAIN, req, WILLING).0.adi.androidId == Some("")
  {
    assert ProvisioningPath(provisioningDir, None) == provisioningDir + "/";
    assert |ProvisioningPath(provisioningDir, None)| > 0;
  }

  /** Both builds have their libraries up after the same requests. */
  lemma {:induction false} SameLibraries(calls: seq<Call>)
    requires RunCached(calls).Continue?
    ensures RunCached(calls).value.initialized == RunPlain(calls).loaded
  {
    hide ProvisioningPath, AndroidId;
    if calls != [] {
      SameLibraries(calls[..|calls| - 1]);
    }
  }

  /** Main result: the cached build refines the plain one.  After any sequence
      of requests, and even where earlier failures left the two libraries in
      different states, a request that the plain build would serve is served by
      the cached one with the same path, unless the process ends; and both then
      hold the same values exactly when the identifier is not null or ADI had
      been given an id before. */
  lemma CachedRefinesPlain(calls: seq<Call>, req: Request, ans: Answers)
    requires RunCached(calls).Continue? && Cached(RunCached(calls).value, req, ans).Continue?
    requires Plain(RunPlain(calls), req, ans).1.Ready?
    ensures var (cached, r) := Cached(RunCached(calls).value, req, ans).value;
            var (plain, s) := Plain(RunPlain(calls), req, ans);
            && r == s && plain.adi == Wanted(req)
            && (cached.adi == plain.adi <==>
                req.identifier.Some? || RunCached(calls).value.adi.androidId.Some?)
  {
    SameLibraries(calls);
    ServedAlike(RunCached(calls).value, RunPlain(calls), req, ans);
    SuccessSetsAdi(calls, req, ans);
    hide ProvisioningPath, AndroidId, RunCached, RunPlain, Cached;
  }

  lemma ServedAlike(st: CachedState, plain: PlainState, req: Request, ans: Answers)
    requires st.initialized == plain.loaded && Cached(st, req, ans).Continue? && Plain(plain, req, ans).1.Ready?
    ensures Cached(st, req, ans).value.1 == Plain(plain, req, ans).1
  {
    hide ProvisioningPath, AndroidId;
  }

  /** Main result: repeating a request that was just served calls no setter, so
      it is served again however the setters would have answered, and changes nothing. */
  lemma RepeatCallsNothing(st: CachedState, req: Request, ans: Answers, again: Answers)
    requires Cached(st, req, ans).Continue? && Cached(st, req, ans).value.1.Ready? && again.isDirectory
    ensures Cached(Cached(st, req, ans).value.0, req, again) == Cached(st, req, ans)
  {
    hide ProvisioningPath, AndroidId;
  }

  // What a request answers -----------------------------------------------------------------------------------

  /** A step of a request that may fail, and the error it then ends with. */
  datatype Check = Check(fails: bool, error: Error)

  /** The first step that fails. */
  function FirstFailing(cs: seq<Check>): (k: Option<nat>)
    ensures k.Some? ==> k.value < |cs| && cs[k.value].fails && forall j | 0 <= j < k.value :: !cs[j].fails
    ensures k.None? ==> forall j | 0 <= j < |cs| :: !cs[j].fails
  {
    if cs == [] then None
    else if cs[0].fails then Some(0)
    else
      match FirstFailing(cs[1..])
      case Some(k) => Some(k + 1)
      case None => None
  }

  /** The steps, in order: those of loading only while the libraries are not up,
      a setter's only when it is to be called. */
  function Checks(up: bool, path: bool, id: bool, req: Request, ans: Answers): seq<Check> {
    [ Check(req.libDir.None?, NoDirectory),
      Check(!ans.isDirectory, NotADirectory),
      Check(!up && !ans.sscLoads, LoadFailed),
      Check(!up && !ans.coreLoads, LoadFailed),
      Check(!up && !ans.loaderFound, SymbolMissing),
      Check(!up && ans.loaderResult != 0, LoaderRefused(ans.loaderResult)),
      Check(path && !ans.pathSetterFound, PathSetterMissing),
      Check(path && ans.pathResult != 0, PathRefused(ans.pathResult)),
      Check(id && !ans.idSetterFound, IdSetterMissing),
      Check(id && ans.idResult != 0, IdRefused(ans.idResult)) ]
  }

  /** The first failing step's error, or the path when none fails. */
  function Answer(cs: seq<Check>, req: Request): Result {
    match FirstFailing(cs)
    case Some(k) => Failed(cs[k].error)
    case None => Ready(ProvisioningPath(req.provisioningDir, req.identifier))
  }

  /** Main result: the first step that fails decides what a request answers.
      The cached build calls a setter only when its value is not the remembered
      one, the macOS build always. */
  lemma FirstFailureDecides(st: CachedState, plain: PlainState, req: Request, ans: Answers)
    ensures var path := ProvisioningPath(req.provisioningDir, req.identifier) != st.path;
            var id := AndroidId(req.identifier) != st.androidId;
            Serve(st, req, ans).1 == Answer(Checks(st.initialized, path, id, req, ans), req)
    ensures Plain(plain, req, ans).1 == Answer(Checks(plain.loaded, true, true, req, ans), req)
  {
    hide ProvisioningPath, AndroidId;
    var path := ProvisioningPath(req.provisioningDir, req.identifier) != st.path;
    var id := AndroidId(req.identifier) != st.androidId;
    StepsDecide(st.initialized, path, id, req, ans);
    StepsDecide(plain.loaded, true, true, req, ans);
    hide Checks, Answer;
  }

  /** The same steps as one chain of conditions. */
  lemma StepsDecide(up: bool, path: bool, id: bool, req: Request, ans: Answers)
    ensures Answer(Checks(up, path, id, req, ans), req) ==
            match Obstacle(up, req, ans)
            case Some(e) => Failed(e)
            case None =>
              if path && !ans.pathSetterFound then Failed(PathSetterMissing)
              else if path && ans.pathResult != 0 then Failed(PathRefused(ans.pathResult))
              else if id && !ans.idSetterFound then Failed(IdSetterMissing)
              else if id && ans.idResult != 0 then Failed(IdRefused(ans.idResult))
              else Ready(ProvisioningPath(req.provisioningDir, req.identifier))
  {
    hide ProvisioningPath, AndroidId;
    var cs := Checks(up, path, id, req, ans);
    var k := FirstFailing(cs);
    hide FirstFailing;
    assert forall j | 0 <= j < |cs| && cs[j].fails :: k.Some? && k.value <= j;
    assert cs[0].fails == req.libDir.None? && cs[1].fails == !ans.isDirectory && cs[2].fails == (!up && !ans.sscLoads);
    assert cs[3].fails == (!up && !ans.coreLoads) && cs[4].fails == (!up && !ans.loaderFound);
    assert cs[5].fails == (!up && ans.loaderResult != 0) && cs[6].fails == (path && !ans.pathSetterFound);
    assert cs[7].fails == (path && ans.pathResult != 0) && cs[8].fails == (id && !ans.idSetterFound);
    assert cs[9].fails == (id && ans.idResult != 0);
  }

  // Retries ---------------------------------------------------------------------------------------------------

  function Repeated(call: Call, k: nat): (calls: seq<Call>)
    ensures |calls| == k && forall i | 0 <= i < k :: calls[i] == call
  {
    seq(k, _ => call)
  }

  /** The libraries load, and then cannot be set up. */
  predicate LoadsInVain(call: Call) {
    && call.req.libDir.Some? && call.ans.isDirectory && call.ans.sscLoads && call.ans.coreLoads
    && (!call.ans.loaderFound || call.ans.loaderResult != 0)
    && call.ans.sscSpan + call.ans.coreSpan > 0
  }

  /** Main result: retries are not free.  Each takes the two libraries' spans
      again, and the process ends at the first one that the range does not hold. */
  lemma {:induction false} RetriesUseRange(call: Call, k: nat)
    requires LoadsInVain(call)
    ensures RunCached(Repeated(call, k)).Continue? <==> k * (call.ans.sscSpan + call.ans.coreSpan) <= LIBRARY_SIZE
    ensures RunCached(Repeated(call, k)).Continue? ==>
              var st := RunCached(Repeated(call, k)).value;
              !st.initialized && st.used == k * (call.ans.sscSpan + call.ans.coreSpan)
  {
    var both := call.ans.sscSpan + call.ans.coreSpan;
    if k > 0 {
      RetriesUseRange(call, k - 1);
      assert Repeated(call, k)[..k - 1] == Repeated(call, k - 1);
      assert k * both == (k - 1) * both + both;
    }
  }
}
