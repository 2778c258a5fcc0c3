/**
 * Package removal (remover.py, and its embedded copy in ansible/lib/kernsweep.py): the apt-get
 * command line, and the per-package status list that a removal produces. The privilege check
 * (`os.geteuid() == 0`) and the outcome of running apt-get are parameters of the model.
 */
module Remover {
  import opened Errors
  import opened Text

  /** The status of one package after a removal request. */
  datatype RemovalStatus = Success | Failed | Skipped {
    /** The enum member's value. */
    function Value(): (v: string)
      ensures |v| > 0
    {
      match this
      case Success => "success"
      case Failed => "failed"
      case Skipped => "skipped"
    }
  }

  /**
   * What `subprocess.run` gave: an exit status, a `SubprocessError` with its text, or an `OSError`
   * (apt-get missing or not executable) with its text. Only the first two are caught.
   */
  datatype AptOutcome = Exited(returnCode: int) | SubprocessFailed(detail: string) | NotStarted(detail: string)

  /** One `(package, status)` pair of the result list. */
  type PackageStatus = (string, RemovalStatus)

  const AptRemovePrefix: seq<string> := ["apt-get", "-y", "remove", "--autoremove", "--purge"]

  const NoPackagesMessage: string := "No packages provided for removal"
  const RootRequiredMessage: string := "Root privileges required. Please run with sudo."

  function ExitCodeMessage(returnCode: int): string {
    "apt-get remove failed with exit code " + IntToDecimal(returnCode)
  }

  function LaunchFailedMessage(detail: string): string {
    "Failed to execute apt-get: " + detail
  }

  /** `[(pkg, RemovalStatus.SUCCESS) for pkg in packages]`. */
  function AllSucceeded(packages: seq<string>): (r: seq<PackageStatus>)
    ensures |r| == |packages|
    ensures forall i :: 0 <= i < |r| ==> r[i] == (packages[i], Success)
  {
    if |packages| == 0 then [] else AllSucceeded(packages[..|packages| - 1]) + [(packages[|packages| - 1], Success)]
  }

  /** The package names of a status list, in order. */
  function Names(results: seq<PackageStatus>): (r: seq<string>)
    ensures |r| == |results|
  {
    if |results| == 0 then [] else Names(results[..|results| - 1]) + [results[|results| - 1].0]
  }

  /**
   * `_execute_apt_removal` once `cmd` has run with the given outcome: every package succeeded
   * when apt-get exited with 0; a `RuntimeError` naming the exit code or the `SubprocessError`;
   * an `OSError` from starting apt-get passes through unchanged. The command itself is only
   * handed to the subprocess.
   */
  function ExecuteAptRemoval(cmd: seq<string>, packages: seq<string>, outcome: AptOutcome): (r: Result<seq<PackageStatus>>)
    ensures r.Ok? <==> outcome == Exited(0)
    ensures r.Ok? ==> Names(r.value) == packages && forall i :: 0 <= i < |r.value| ==> r.value[i].1 == Success
    ensures outcome.Exited? && outcome.returnCode != 0 ==> r == Err(RuntimeError(ExitCodeMessage(outcome.returnCode)))
    ensures outcome.SubprocessFailed? ==> r == Err(RuntimeError(LaunchFailedMessage(outcome.detail)))
    ensures outcome.NotStarted? ==> r == Err(OSError(outcome.detail))
  {
    match outcome
    case NotStarted(detail) => Err(OSError(detail))
    case SubprocessFailed(detail) => Err(RuntimeError(LaunchFailedMessage(detail)))
    case Exited(returnCode) =>
      if returnCode == 0 then
        AllSucceededNames(packages);
        Ok(AllSucceeded(packages))
      else Err(RuntimeError(ExitCodeMessage(returnCode)))
  }

  /**
   * `generate_apt_command`: the fixed five-token prefix extended by the packages, in order; an
   * empty list is refused. The argument is not changed (it is a value here).
   */
  method GenerateAptCommand(packages: seq<string>) returns (r: Result<seq<string>>)
    ensures |packages| == 0 <==> r.Err?
    ensures r.Err? ==> r.error == ValueError(NoPackagesMessage)
    ensures r.Ok? ==> |r.value| == |AptRemovePrefix| + |packages|
    ensures r.Ok? ==> r.value[..|AptRemovePrefix|] == AptRemovePrefix && r.value[|AptRemovePrefix|..] == packages
  {
    if |packages| == 0 {
      return Err(ValueError(NoPackagesMessage));
    }
    var cmd := AptRemovePrefix;
    cmd := cmd + packages;
    return Ok(cmd);
  }

  /**
   * `remove_packages(packages, dry_run)` where `isRoot` is what `check_sudo()` answers and
   * `outcome` is what running apt-get would give. Empty input returns at once; a dry run reports
   * every package as removed without any privilege check; otherwise root is required and the
   * removal runs on the generated command.
   */
  method RemovePackages(packages: seq<string>, dryRun: bool, isRoot: bool, outcome: AptOutcome)
      returns (r: Result<seq<PackageStatus>>)
    ensures |packages| == 0 ==> r == Ok([])
    ensures |packages| > 0 && dryRun ==> r == Ok(AllSucceeded(packages))
    ensures |packages| > 0 && !dryRun && !isRoot ==> r == Err(PermissionError(RootRequiredMessage))
    ensures |packages| > 0 && !dryRun && isRoot ==> r == ExecuteAptRemoval(AptRemovePrefix + packages, packages, outcome)
  {
    if |packages| == 0 {
      return Ok([]);
    }
    if dryRun {
      return Ok(AllSucceeded(packages));
    }
    if !isRoot {
      return Err(PermissionError(RootRequiredMessage));
    }
    var cmd := GenerateAptCommand(packages);
    assert cmd.value == AptRemovePrefix + packages;
    return ExecuteAptRemoval(cmd.value, packages, outcome);
  }

  // ----- Properties -----

  /** The success list names exactly the given packages, in order. */
  lemma {:induction false} AllSucceededNames(packages: seq<string>)
    ensures Names(AllSucceeded(packages)) == packages
    decreases |packages|
  {
    if |packages| > 0 {
      var init := packages[..|packages| - 1];
      AllSucceededNames(init);
      assert AllSucceeded(packages)[..|packages| - 1] == AllSucceeded(init);
      assert packages == init + [packages[|packages| - 1]];
    }
  }

  /** The exit code can be read back from the failure message: distinct codes, distinct messages. */
  lemma ExitCodeMessageInjective(c1: int, c2: int)
    requires ExitCodeMessage(c1) == ExitCodeMessage(c2)
    ensures c1 == c2
  {
    PrefixCancels("apt-get remove failed with exit code ", IntToDecimal(c1), IntToDecimal(c2));
    IntToDecimalInjective(c1, c2);
  }
}
