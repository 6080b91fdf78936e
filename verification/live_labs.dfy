/**
 The cloud-lab launcher: a catalogue of lab instances, a boot sequence driven by a
 400 ms interval that advances a progress counter by 10 per firing and brings the lab
 online once it has seen 100, and a session view that can be terminated. The launcher is
 modelled as a state machine whose steps are the user's two buttons and one firing of a
 running interval; the random choice of boot message is a parameter of the firing.
 */
module LiveLabs {
  import opened Optional
  import opened Strings

  datatype Lab = Lab(id: string, name: string, kind: string, specs: string)

  const Catalogue: seq<Lab> := [
    Lab("gen-ai-sandbox", "Generative AI Sandbox", "NVIDIA Tesla A100 Instance", "80GB VRAM / 64GB RAM"),
    Lab("fullstack-node", "Full Stack Node.js Node", "Ubuntu 22.04 LTS Container", "4 vCPU / 8GB RAM"),
    Lab("devsecops-pipeline", "DevSecOps Automation Lab", "Kubernetes Cluster Node", "Shared K8s Cluster"),
    Lab("data-science-env", "Data Intelligence Hub", "Jupyter Enterprise Node", "Memory Optimized Instance")
  ]

  datatype Status = Idle | Loading | Active

  const BootMessages: seq<string> := [
    "Mounting persistent storage...",
    "Injecting internship datasets...",
    "Checking tool versions...",
    "Finalizing network config...",
    "Allocating memory pools..."
  ]

  /** A position in the list of boot messages. */
  type MessageIndex = i: nat | i < 5

  /** A line of the terminal log, named by what wrote it; `Text` spells it out. */
  datatype LogLine =
    | Initializing(name: string)
    | Provisioning(kind: string)
    | Tunnel
    | BootStep(message: MessageIndex)
    | Online(id: string)
    | ShellReady

  function Text(line: LogLine): string {
    match line
    case Initializing(name) => "Initializing " + name + "..."
    case Provisioning(kind) => "Provisioning " + kind + " resource..."
    case Tunnel => "Establishing secure SSH tunnel..."
    case BootStep(i) => BootMessages[i]
    case Online(id) => "Instance [" + id + "] is ONLINE."
    case ShellReady => "Welcome to TechSkyline Cloud Shell. Ready for input."
  }

  /** The launcher's state. `running` lists the labs whose boot intervals are still firing,
      in the order they were started: each interval keeps the lab it was started for. */
  datatype Labs = Labs(active: Option<Lab>, status: Status, logs: seq<LogLine>, progress: int, running: seq<Lab>)

  const Initial: Labs := Labs(None, Idle, [], 0, [])

  /** The lines logged when a lab is started. */
  function StartLines(lab: Lab): seq<LogLine> {
    [Initializing(lab.name), Provisioning(lab.kind), Tunnel]
  }

  /** The lines logged when a lab comes online. */
  function OnlineLines(lab: Lab): seq<LogLine> {
    [Online(lab.id), ShellReady]
  }

  /** `startLab(lab)`: the lab becomes active and loading, progress restarts at 0, the log
      holds the three start lines, and a new interval starts firing for it. Intervals that
      are already running are not stopped. */
  function StartLab(s: Labs, lab: Lab): (r: Labs)
    ensures r.active == Some(lab) && r.status == Loading && r.progress == 0
    ensures |r.logs| == 3
    ensures Text(r.logs[0]) == "Initializing " + lab.name + "..."
    ensures Text(r.logs[1]) == "Provisioning " + lab.kind + " resource..."
    ensures r.running == s.running + [lab]
  {
    Labs(Some(lab), Loading, StartLines(lab), 0, s.running + [lab])
  }

  /** The random boot message chosen by one firing, and, for the firing that brings the lab
      online, whether the online lines land in the log before that message or after it: the
      two log updates are queued from different places and their order is not fixed. */
  datatype Pick = Pick(line: MessageIndex, onlineFirst: bool)

  /** The lines one firing adds to the log. */
  function TickLines(s: Labs, lab: Lab, p: Pick): seq<LogLine>
  {
    if s.progress < 100 then [BootStep(p.line)]
    else if p.onlineFirst then OnlineLines(lab) + [BootStep(p.line)]
    else [BootStep(p.line)] + OnlineLines(lab)
  }

  /** One firing of the interval started for `running[k]`. Below 100 it adds 10 to the
      progress; at 100 or above it stops its interval, keeps the progress at 100, makes the
      status active and logs the online lines. Either way it logs one boot message. */
  function Fire(s: Labs, k: nat, p: Pick): (r: Labs)
    requires k < |s.running|
    ensures s.progress < 100 ==> r.progress == s.progress + 10 && r.status == s.status && r.running == s.running
    ensures s.progress >= 100 ==> r.progress == 100 && r.status == Active
    ensures s.progress >= 100 ==> r.running == s.running[..k] + s.running[k + 1..]
    ensures r.active == s.active
    ensures |r.logs| > |s.logs| && r.logs[..|s.logs|] == s.logs
    ensures BootStep(p.line) in r.logs[|s.logs|..]
  {
    var lines := TickLines(s, s.running[k], p);
    var logs := s.logs + lines;
    assert logs[|s.logs|..] == lines;
    if s.progress >= 100 then
      s.(progress := 100, status := Active, logs := logs, running := s.running[..k] + s.running[k + 1..])
    else
      s.(progress := s.progress + 10, logs := logs)
  }

  /** `closeLab`: back to idle with no lab and an empty log. The progress counter and any
      running interval are left as they are. */
  function CloseLab(s: Labs): (r: Labs)
    ensures r.status == Idle && r.active == None && r.logs == []
    ensures r.progress == s.progress && r.running == s.running
  {
    s.(status := Idle, active := None, logs := [])
  }

  datatype View = Session(lab: Lab) | Boot(lab: Lab) | CatalogueView

  /** Which screen is rendered: the session when active with a lab, the boot screen when
      loading with a lab, the catalogue otherwise. */
  function ViewOf(s: Labs): (v: View)
    ensures v.Session? <==> s.status == Active && s.active.Some?
    ensures v.Boot? <==> s.status == Loading && s.active.Some?
    ensures !v.CatalogueView? ==> v.lab == s.active.value
  {
    if s.status == Active && s.active.Some? then Session(s.active.value)
    else if s.status == Loading && s.active.Some? then Boot(s.active.value)
    else CatalogueView
  }

  /** What can happen next: a lab card's start button (rendered only in the catalogue), a
      firing of any running interval, or the terminate button (rendered only in the session). */
  datatype Event = Start(lab: Lab) | Tick(k: nat, p: Pick) | Terminate

  function Enabled(s: Labs, e: Event): (b: bool)
    ensures Inv(s) && e.Start? ==> (b <==> s.status == Idle)
    ensures Inv(s) && e.Terminate? ==> (b <==> s.status == Active)
    ensures Inv(s) && e.Tick? && b ==> s.status == Loading
  {
    match e
    case Start(_) => ViewOf(s).CatalogueView?
    case Tick(k, _) => k < |s.running|
    case Terminate => ViewOf(s).Session?
  }

  /** Closing is the only way back to the catalogue; a start always begins a fresh boot. */
  function Step(s: Labs, e: Event): (r: Labs)
    requires Enabled(s, e)
    ensures e.Start? ==> r.status == Loading && r.progress == 0
    ensures Inv(s) ==> (r.status == Idle <==> e.Terminate?)
  {
    match e
    case Start(lab) => StartLab(s, lab)
    case Tick(k, p) => Fire(s, k, p)
    case Terminate => CloseLab(s)
  }

  /** The reachable states: progress is a multiple of 10 within 0..100; an idle launcher has
      no lab, no log and no running interval; a loading one has exactly its own interval
      running and one boot line per 10% after the start lines; an active one has no interval
      running and shows 100%. */
  predicate Inv(s: Labs) {
    && 0 <= s.progress <= 100 && s.progress % 10 == 0
    && (s.status == Idle ==> s.active == None && s.logs == [] && s.running == [])
    && (s.status == Loading ==>
          && s.active.Some? && s.running == [s.active.value]
          && |s.logs| == 3 + s.progress / 10
          && s.logs[..3] == StartLines(s.active.value))
    && (s.status == Active ==> s.active.Some? && s.running == [] && s.progress == 100)
  }

  lemma InitialInv()
    ensures Inv(Initial) && ViewOf(Initial) == CatalogueView
  {
  }

  /** Every enabled event keeps the invariant. */
  lemma StepKeepsInv(s: Labs, e: Event)
    requires Inv(s) && Enabled(s, e)
    ensures Inv(Step(s, e))
  {
    match e {
      case Start(lab) => StartKeepsInv(s, lab);
      case Tick(k, p) =>
        if s.progress < 100 {
          FireWhileLoading(s, p);
        } else {
          FireAtHundredKeepsInv(s, p);
        }
      case Terminate => CloseKeepsInv(s);
    }
  }

  lemma CloseKeepsInv(s: Labs)
    requires Inv(s) && ViewOf(s).Session?
    ensures Inv(CloseLab(s))
  {
    assert s.status == Active;
  }

  lemma StartKeepsInv(s: Labs, lab: Lab)
    requires Inv(s) && ViewOf(s).CatalogueView?
    ensures Inv(StartLab(s, lab))
  {
    assert s.status == Idle;
    var r := StartLab(s, lab);
    assert r.logs[..3] == r.logs;
  }

  /** A firing below 100% adds 10% and its boot message, and keeps the invariant. */
  lemma FireWhileLoading(s: Labs, p: Pick)
    requires Inv(s) && |s.running| > 0 && s.progress < 100
    ensures Fire(s, 0, p) == s.(progress := s.progress + 10, logs := s.logs + [BootStep(p.line)])
    ensures Inv(Fire(s, 0, p))
  {
    assert s.status == Loading;
    var logs := s.logs + [BootStep(p.line)];
    assert logs[..3] == s.logs[..3];
  }

  lemma FireAtHundredKeepsInv(s: Labs, p: Pick)
    requires Inv(s) && |s.running| > 0 && s.progress >= 100
    ensures Inv(Fire(s, 0, p))
  {
    assert s.status == Loading && |s.running| == 1;
  }

  /** Under the invariant the rendered screen is determined by the status alone. */
  lemma ViewFollowsStatus(s: Labs)
    requires Inv(s)
    ensures ViewOf(s).CatalogueView? <==> s.status == Idle
    ensures ViewOf(s).Boot? <==> s.status == Loading
    ensures ViewOf(s).Session? <==> s.status == Active
  {
  }

  /** Closing a session does not stop any interval, yet none is left running: the interval
      stopped itself on the firing that activated the lab, and the session (the only screen
      with a terminate button) is shown only after that firing. So at most one interval ever
      runs and a closed launcher never changes again by itself. */
  lemma CloseLeavesNothingRunning(s: Labs)
    requires Inv(s) && Enabled(s, Terminate)
    ensures CloseLab(s).running == []
    ensures forall e :: Enabled(CloseLab(s), e) ==> e.Start?
  {
  }

  lemma AtMostOneInterval(s: Labs)
    requires Inv(s)
    ensures |s.running| <= 1
  {
  }

  /** While loading, a firing only appends to the log: earlier lines never change. */
  lemma LogGrowsWhileLoading(s: Labs, e: Event)
    requires Inv(s) && s.status == Loading && Enabled(s, e)
    ensures |Step(s, e).logs| > |s.logs|
    ensures Step(s, e).logs[..|s.logs|] == s.logs
  {
    assert e.Tick?;
  }

  /** The boot messages chosen by a run of firings. */
  function BootLines(picks: seq<Pick>): seq<LogLine>
  {
    seq(|picks|, i requires 0 <= i < |picks| => BootStep(picks[i].line))
  }

  /** Successive firings of the first running interval; stops early once none runs. */
  function Run(s: Labs, picks: seq<Pick>): Labs
    decreases |picks|
  {
    if |picks| == 0 || |s.running| == 0 then s
    else Run(Fire(s, 0, picks[0]), picks[1..])
  }

  /** Below 100%, each firing adds 10% and exactly its boot message. */
  lemma {:induction false} RunWhileLoading(s: Labs, picks: seq<Pick>)
    requires Inv(s) && s.status == Loading
    requires s.progress + 10 * |picks| <= 100
    ensures var r := Run(s, picks);
            && r.status == Loading && r.active == s.active && r.running == s.running
            && r.progress == s.progress + 10 * |picks|
            && r.logs == s.logs + BootLines(picks)
            && Inv(r)
    decreases |picks|
  {
    if |picks| > 0 {
      FireWhileLoading(s, picks[0]);
      var t := Fire(s, 0, picks[0]);
      RunWhileLoading(t, picks[1..]);
      BootLinesCons(picks);
      assert s.logs + [BootStep(picks[0].line)] + BootLines(picks[1..]) == s.logs + BootLines(picks);
    } else {
      assert BootLines(picks) == [];
    }
  }

  lemma BootLinesCons(picks: seq<Pick>)
    requires |picks| > 0
    ensures BootLines(picks) == [BootStep(picks[0].line)] + BootLines(picks[1..])
  {
  }

  /** The firing that sees 100% brings the lab online: status active, no interval left,
      and the log gains the online lines and one boot message, in either order. */
  lemma ActivatesAtHundred(s: Labs, p: Pick)
    requires Inv(s) && s.status == Loading && s.progress == 100
    ensures var r := Fire(s, 0, p);
            && r.status == Active && r.progress == 100 && r.running == [] && r.active == s.active
            && (r.logs == s.logs + OnlineLines(s.active.value) + [BootStep(p.line)]
                || r.logs == s.logs + [BootStep(p.line)] + OnlineLines(s.active.value))
    ensures |Fire(s, 0, p).logs| == |s.logs| + 3
  {
  }

  /** Starting a lab from the catalogue: ten firings bring the boot screen to 100% with one
      boot message each, and the eleventh firing brings the lab online with its log being
      the start lines, the ten boot messages, and the online lines around the last one. */
  lemma BootTakesElevenFirings(s: Labs, lab: Lab, picks: seq<Pick>)
    requires Inv(s) && Enabled(s, Start(lab))
    requires |picks| == 11
    ensures var t := Run(StartLab(s, lab), picks[..10]);
            t.status == Loading && t.progress == 100
            && t.logs == StartLines(lab) + BootLines(picks[..10])
    ensures var r := Run(StartLab(s, lab), picks);
            && r.status == Active && r.progress == 100 && r.running == [] && r.active == Some(lab)
            && |r.logs| == 16
            && r.logs[..13] == StartLines(lab) + BootLines(picks[..10])
  {
    var s0 := StartLab(s, lab);
    StartKeepsInv(s, lab);
    RunWhileLoading(s0, picks[..10]);
    var t := Run(s0, picks[..10]);
    assert |t.logs| == 13;
    RunAppend(s0, picks[..10], picks[10..]);
    assert picks[..10] + picks[10..] == picks;
    ActivatesAtHundred(t, picks[10]);
    var r := Fire(t, 0, picks[10]);
    assert Run(t, picks[10..]) == r by {
      assert picks[10..][1..] == [];
    }
  }

  /** Running in two batches is running once. */
  lemma {:induction false} RunAppend(s: Labs, a: seq<Pick>, b: seq<Pick>)
    ensures Run(s, a + b) == Run(Run(s, a), b)
    decreases |a|
  {
    if |a| > 0 && |s.running| > 0 {
      assert (a + b)[0] == a[0];
      assert (a + b)[1..] == a[1..] + b;
      RunAppend(Fire(s, 0, a[0]), a[1..], b);
    } else if |a| == 0 {
      assert a + b == b;
    } else {
      assert Run(s, a) == s;
    }
  }

  /** The memory figure in the session header, `specs.split('/')[1]?.trim() || specs`:
      the trimmed second '/'-separated piece, or the whole specs when there is no such
      piece or it is blank. */
  function MemoryLabel(specs: string): (r: string)
    ensures r == specs || (IsTrimmed(r) && r != "")
  {
    var parts := Split(specs, '/');
    if |parts| > 1 && Trim(parts[1]) != "" then Trim(parts[1]) else specs
  }

  /** Read on the text itself: the label is the trimmed text between the first and second
      '/' (or after the only one) when that is not blank, and the specs unchanged otherwise. */
  lemma MemoryLabelMeaning(specs: string)
    ensures '/' !in specs ==> MemoryLabel(specs) == specs
    ensures '/' in specs ==>
      var piece := Trim(UpTo(After(specs, '/'), '/'));
      MemoryLabel(specs) == if piece != "" then piece else specs
  {
    if '/' in specs {
      SplitTail(specs, '/');
      SplitHead(After(specs, '/'), '/');
      var parts := Split(specs, '/');
      assert parts[1..][0] == parts[1];
    } else {
      SplitWithoutSeparator(specs, '/');
    }
  }

  /** Specs of the form "<size> / <memory>" show the memory part. */
  lemma MemoryLabelOfPair(a: string, pad: string, m: string)
    requires '/' !in a && AllSpace(pad) && IsTrimmed(m) && m != "" && '/' !in m
    ensures MemoryLabel(a + (['/'] + (pad + m))) == m
  {
    var rest := pad + m;
    var specs := a + (['/'] + rest);
    PaddedHasNoSlash(pad, m);
    AfterFirst(a, rest, '/');
    UpToWithoutSeparator(rest, '/');
    TrimOfPadded(pad, m, "");
    assert pad + m + "" == rest;
    MemoryLabelMeaning(specs);
  }

  lemma PaddedHasNoSlash(pad: string, m: string)
    requires AllSpace(pad) && '/' !in m
    ensures '/' !in pad + m
  {
    forall i | 0 <= i < |pad + m| ensures (pad + m)[i] != '/' {
      if i < |pad| {
        assert IsSpace(pad[i]);
      } else {
        assert (pad + m)[i] == m[i - |pad|];
      }
    }
  }

  /** "80GB VRAM / 64GB RAM" shows "64GB RAM". */
  lemma MemoryLabelGpuLab(specs: string)
    requires specs == "80GB VRAM / 64GB RAM"
    ensures MemoryLabel(specs) == "64GB RAM"
  {
    var a, m := "80GB VRAM ", "64GB RAM";
    assert specs == a + (['/'] + (" " + m));
    MemoryLabelOfPair(a, " ", m);
  }

  /** "Shared K8s Cluster" has no '/' and is shown as it is. */
  lemma MemoryLabelSharedCluster(specs: string)
    requires specs == "Shared K8s Cluster"
    ensures MemoryLabel(specs) == specs
  {
    assert forall i :: 0 <= i < |specs| ==> specs[i] != '/';
    MemoryLabelMeaning(specs);
  }
}
