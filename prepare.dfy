/**
 * The precondition checks and the hook/event sequence of `prepare(platform?)`.
 *
 * Everything behind prepare (file copies, plugman, the platform parsers and
 * their native-project update) is a collaborator and appears only as an
 * event in the trace. A run is a pure function of where it is started (the
 * project root, if the working directory is inside a project), the platforms
 * the project lists, and the platform asked for, if any.
 */
module Prepare {
  import opened Wrappers

  /** The data object passed to the `before_prepare` and `after_prepare` hooks. */
  datatype Payload = Payload(verbose: bool, platforms: seq<string>, options: seq<string>, paths: seq<string>)

  datatype Event =
    | Hook(name: string, payload: Payload)
    | UpdateWww(platform: string)        // the platform project's update_www
    | UpdateProject(platform: string)    // the platform project's update_project
    | PluginPrepare(platform: string)    // plugman.prepare for the platform

  /** The events a run produced, and the error it failed with, if it failed. */
  datatype Run = Run(trace: seq<Event>, error: Option<string>)

  const BeforePrepare := "before_prepare"
  const AfterPrepare := "after_prepare"

  const NotAProjectError := "Current working directory is not a Cordova-based project."
  const NoPlatformsError := "No platforms added to this project. Please use `cordova platform add <platform>`."

  /** `path.join(projectRoot, 'platforms', platform, 'www')` */
  function WwwPath(projectRoot: string, platform: string): (r: string)
    ensures |r| == |projectRoot| + |platform| + 15
    ensures r[..|projectRoot|] == projectRoot
    ensures r[|projectRoot|..|projectRoot| + 11] == "/platforms/"
    ensures r[|projectRoot| + 11..|r| - 4] == platform
    ensures r[|r| - 4..] == "/www"
  {
    projectRoot + "/platforms/" + platform + "/www"
  }

  /** The www directory of every platform, in the platforms' order. */
  function WwwPaths(projectRoot: string, platforms: seq<string>): (r: seq<string>)
    ensures |r| == |platforms|
    ensures forall i :: 0 <= i < |platforms| ==> r[i] == WwwPath(projectRoot, platforms[i])
  {
    seq(|platforms|, i requires 0 <= i < |platforms| => WwwPath(projectRoot, platforms[i]))
  }

  /** The platforms a run prepares: the one asked for, or else every listed one. */
  function Targets(listed: seq<string>, requested: Option<string>): (r: seq<string>)
    ensures requested.Some? ==> r == [requested.value]
    ensures requested.None? ==> r == listed
    ensures listed != [] ==> r != []
  {
    match requested
    case Some(p) => [p]
    case None => listed
  }

  /** The hooks' data object: not verbose, no options, the platforms and their www directories. */
  function HookPayload(projectRoot: string, platforms: seq<string>): (r: Payload)
    ensures !r.verbose && r.options == [] && r.platforms == platforms
    ensures |r.paths| == |platforms|
    ensures forall i :: 0 <= i < |platforms| ==> r.paths[i] == WwwPath(projectRoot, platforms[i])
  {
    Payload(false, platforms, [], WwwPaths(projectRoot, platforms))
  }

  /** Per platform, in order: update its www, update its native project, then plugman.prepare. */
  function PlatformSteps(platforms: seq<string>): (r: seq<Event>)
    ensures |r| == 3 * |platforms|
  {
    if platforms == [] then []
    else [UpdateWww(platforms[0]), UpdateProject(platforms[0]), PluginPrepare(platforms[0])] + PlatformSteps(platforms[1..])
  }

  /** One `prepare` run. */
  function RunPrepare(projectRoot: Option<string>, listed: seq<string>, requested: Option<string>): (r: Run)
    ensures projectRoot.None? ==> r == Run([], Some(NotAProjectError))
    ensures projectRoot.Some? && listed == [] ==> r == Run([], Some(NoPlatformsError))
    ensures r.error.None? <==> projectRoot.Some? && listed != []
    ensures r.error.None? ==>
      && |r.trace| == 3 * |Targets(listed, requested)| + 2
      && r.trace[0] == Hook(BeforePrepare, HookPayload(projectRoot.value, Targets(listed, requested)))
      && r.trace[|r.trace| - 1] == Hook(AfterPrepare, HookPayload(projectRoot.value, Targets(listed, requested)))
  {
    match projectRoot
    case None => Run([], Some(NotAProjectError))
    case Some(root) =>
      if listed == [] then Run([], Some(NoPlatformsError))
      else
        var targets := Targets(listed, requested);
        var payload := HookPayload(root, targets);
        Run([Hook(BeforePrepare, payload)] + PlatformSteps(targets) + [Hook(AfterPrepare, payload)], None)
  }

  lemma {:induction false} PlatformStepsAt(platforms: seq<string>, i: nat)
    requires i < |platforms|
    ensures |PlatformSteps(platforms)| == 3 * |platforms|
    ensures PlatformSteps(platforms)[3 * i] == UpdateWww(platforms[i])
    ensures PlatformSteps(platforms)[3 * i + 1] == UpdateProject(platforms[i])
    ensures PlatformSteps(platforms)[3 * i + 2] == PluginPrepare(platforms[i])
  {
    if i > 0 {
      PlatformStepsAt(platforms[1..], i - 1);
    } else if |platforms| > 1 {
      PlatformStepsAt(platforms[1..], 0);
    }
  }

  /** Outside a project, prepare fails with the "not a project" message and fires nothing. */
  lemma OutsideProjectFails(listed: seq<string>, requested: Option<string>)
    ensures RunPrepare(None, listed, requested) == Run([], Some(NotAProjectError))
  {
  }

  /** With no platforms added, prepare fails with the "no platforms" message and fires no hook. */
  lemma NoPlatformsFails(root: string, requested: Option<string>)
    ensures RunPrepare(Some(root), [], requested) == Run([], Some(NoPlatformsError))
  {
  }

  /** A run succeeds exactly when it starts inside a project that lists a platform; a failed run fires no hook. */
  lemma SucceedsIff(projectRoot: Option<string>, listed: seq<string>, requested: Option<string>)
    ensures RunPrepare(projectRoot, listed, requested).error.None? <==> projectRoot.Some? && listed != []
    ensures RunPrepare(projectRoot, listed, requested).error.Some? ==> RunPrepare(projectRoot, listed, requested).trace == []
  {
  }

  /**
   * The shape of a successful run over the platforms `ps` it targets:
   * `before_prepare` first, then per platform its www update, its native
   * project update and plugman.prepare, in platform order, then `after_prepare`;
   * both hooks receive the same payload, whose `paths[i]` is the www directory
   * of `platforms[i]`.
   */
  lemma SuccessfulTrace(root: string, listed: seq<string>, requested: Option<string>)
    requires listed != []
    ensures var run := RunPrepare(Some(root), listed, requested);
      var ps := Targets(listed, requested);
      && run.error == None
      && |run.trace| == 3 * |ps| + 2
      && run.trace[0] == Hook(BeforePrepare, HookPayload(root, ps))
      && run.trace[|run.trace| - 1] == Hook(AfterPrepare, HookPayload(root, ps))
      && (forall i :: 0 <= i < |ps| ==>
            && run.trace[3 * i + 1] == UpdateWww(ps[i])
            && run.trace[3 * i + 2] == UpdateProject(ps[i])
            && run.trace[3 * i + 3] == PluginPrepare(ps[i]))
  {
    var run := RunPrepare(Some(root), listed, requested);
    var ps := Targets(listed, requested);
    var steps := PlatformSteps(ps);
    var payload := HookPayload(root, ps);
    assert run.trace == [Hook(BeforePrepare, payload)] + steps + [Hook(AfterPrepare, payload)];
    forall i | 0 <= i < |ps|
      ensures run.trace[3 * i + 1] == UpdateWww(ps[i])
      ensures run.trace[3 * i + 2] == UpdateProject(ps[i])
      ensures run.trace[3 * i + 3] == PluginPrepare(ps[i])
    {
      PlatformStepsAt(ps, i);
      assert run.trace[3 * i + 1] == steps[3 * i];
      assert run.trace[3 * i + 2] == steps[3 * i + 1];
      assert run.trace[3 * i + 3] == steps[3 * i + 2];
    }
  }

  /** The hook payload: not verbose, no options, and `paths[i]` the www directory of `platforms[i]`. */
  lemma PayloadPaths(root: string, ps: seq<string>)
    ensures var p := HookPayload(root, ps);
      && !p.verbose && p.options == [] && p.platforms == ps
      && |p.paths| == |ps|
      && forall i :: 0 <= i < |ps| ==> p.paths[i] == root + "/platforms/" + ps[i] + "/www"
  {
  }

  /** The hooks fire exactly twice, and every platform's plugman.prepare comes after its update_project. */
  lemma PluginPrepareAfterUpdateProject(root: string, listed: seq<string>, requested: Option<string>)
    requires listed != []
    ensures var run := RunPrepare(Some(root), listed, requested);
      var ps := Targets(listed, requested);
      && (forall j :: 0 < j < |run.trace| - 1 ==> !run.trace[j].Hook?)
      && (forall i :: 0 <= i < |ps| ==>
            (exists a, b :: 0 < a < b < |run.trace| - 1 && run.trace[a] == UpdateProject(ps[i]) && run.trace[b] == PluginPrepare(ps[i])))
  {
    var run := RunPrepare(Some(root), listed, requested);
    var ps := Targets(listed, requested);
    SuccessfulTrace(root, listed, requested);
    forall j | 0 < j < |run.trace| - 1 ensures !run.trace[j].Hook? {
      var i := (j - 1) / 3;
      PlatformStepsAt(ps, i);
      assert run.trace[j] == PlatformSteps(ps)[j - 1];
    }
    forall i | 0 <= i < |ps|
      ensures exists a, b :: 0 < a < b < |run.trace| - 1 && run.trace[a] == UpdateProject(ps[i]) && run.trace[b] == PluginPrepare(ps[i])
    {
      assert run.trace[3 * i + 2] == UpdateProject(ps[i]) && run.trace[3 * i + 3] == PluginPrepare(ps[i]);
    }
  }

  /** `prepare()` passes every listed platform and its www path to `before_prepare`. */
  lemma PrepareAllFiresBeforeHook(listed: seq<string>)
    requires listed != []
    ensures RunPrepare(Some("/some/path"), listed, None).trace[0]
         == Hook("before_prepare", Payload(false, listed, [], WwwPaths("/some/path", listed)))
  {
    SuccessfulTrace("/some/path", listed, None);
  }

  /** `prepare('android')` passes only android and its www path to `after_prepare`. */
  lemma PrepareAndroidFiresAfterHook(listed: seq<string>)
    requires listed != []
    ensures var trace := RunPrepare(Some("/some/path"), listed, Some("android")).trace;
      trace[|trace| - 1] == Hook("after_prepare", Payload(false, ["android"], [], ["/some/path/platforms/android/www"]))
  {
    SuccessfulTrace("/some/path", listed, Some("android"));
    var paths := WwwPaths("/some/path", ["android"]);
    assert |paths| == 1 && paths[0] == WwwPath("/some/path", "android");
    assert WwwPath("/some/path", "android") == "/some/path/platforms/android/www";
    assert paths == ["/some/path/platforms/android/www"];
  }
}
