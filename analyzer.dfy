/**
 * Kernel analysis (analyzer.py, and its embedded copy in ansible/lib/kernsweep.py): find the
 * running and the latest kernel, split the installed kernel packages into protected and obsolete,
 * veto unsafe removal plans, and find header packages whose kernel is not kept.
 */
module Analyzer {
  import opened Errors
  import opened Text
  import opened Version
  import opened Detector

  /** What `analyze_kernels` returns; `obsoleteHeaders` is filled by the caller afterwards. */
  datatype AnalysisResult = AnalysisResult(
    runningKernel: string,
    latestKernel: string,
    obsoleteKernels: seq<string>,
    obsoleteHeaders: seq<string>,
    protectedKernels: seq<string>)

  const ImagePrefix: string := "linux-image-"
  const HeaderPrefix: string := "linux-headers-"

  /** Removing more image packages than this at once is refused as excessive. */
  const BulkLimit: nat := 5

  const NoKernelsMessage: string := "No kernels provided for analysis"
  const NoRunningMessage: string := "Running kernel not found in installed kernels list"
  const NoneRemainMessage: string := "Safety check failed: No kernels would remain after removal"

  function RunningRemovedMessage(version: string): string {
    "Safety check failed: Running kernel " + version + " is marked for removal"
  }

  function LatestRemovedMessage(version: string): string {
    "Safety check failed: Latest kernel " + version + " is marked for removal"
  }

  function BulkMessage(count: nat): string {
    "Safety check warning: Attempting to remove " + NatToDecimal(count) + " kernels at once. This seems excessive."
  }

  // ----- The pieces of analyze_kernels, as functions of the records -----

  /** The index of the first record flagged running (the search loop of lines 99-102). */
  function FirstRunning(ks: seq<KernelInfo>): (r: Option<nat>)
    reads ks
    ensures r.Some? ==> r.value < |ks| && ks[r.value].isRunning
    ensures r.Some? ==> forall j :: 0 <= j < r.value ==> !ks[j].isRunning
    ensures r.None? <==> forall j :: 0 <= j < |ks| ==> !ks[j].isRunning
  {
    if |ks| == 0 then None
    else if ks[0].isRunning then Some(0)
    else
      match FirstRunning(ks[1..])
      case None => None
      case Some(i) => Some(i + 1)
  }

  /**
   * The strict-greater fold of lines 108-111 under a comparison `newer`: start from the first
   * record and move to a later record only when it compares greater than the current candidate.
   */
  function LatestBy(ks: seq<KernelInfo>, newer: (string, string) -> int): (i: nat)
    requires |ks| > 0
    ensures i < |ks|
  {
    if |ks| == 1 then 0
    else
      var c := LatestBy(ks[..|ks| - 1], newer);
      if newer(ks[|ks| - 1].version, ks[c].version) > 0 then |ks| - 1 else c
  }

  /** The record `analyze_kernels` marks latest: the fold under `compare_kernel_versions`. */
  function LatestIndex(ks: seq<KernelInfo>): (i: nat)
    requires |ks| > 0
    ensures i < |ks|
  {
    LatestBy(ks, CompareKernelVersions)
  }

  /**
   * The package names, in input order, of the records whose version is (`keep`) or is not
   * (`!keep`) in `versions` (the partition loop of lines 120-124).
   */
  function PackagesWhere(ks: seq<KernelInfo>, versions: set<string>, keep: bool): (r: seq<string>)
    ensures |r| <= |ks|
  {
    if |ks| == 0 then []
    else
      var last := ks[|ks| - 1];
      PackagesWhere(ks[..|ks| - 1], versions, keep) + (if (last.version in versions) == keep then [last.packageName] else [])
  }

  /** The package names of all records, in order. */
  function PackageNames(ks: seq<KernelInfo>): (r: seq<string>)
    ensures |r| == |ks|
  {
    if |ks| == 0 then [] else PackageNames(ks[..|ks| - 1]) + [ks[|ks| - 1].packageName]
  }

  /** The entries that contain `linux-image-` (the comprehension at line 210). */
  function ImagesIn(packages: seq<string>): (r: seq<string>)
    ensures |r| <= |packages|
  {
    if |packages| == 0 then []
    else
      var last := packages[|packages| - 1];
      ImagesIn(packages[..|packages| - 1]) + (if Contains(last, ImagePrefix) then [last] else [])
  }

  /**
   * `validate_removal_safety`: four checks in order, the first failure wins; `(true, "")` when all
   * pass. Only `len(all_kernels)` is used of the kernel list.
   */
  function ValidateRemovalSafety(packagesToRemove: seq<string>, runningKernel: string, latestKernel: string,
                                 allKernels: seq<KernelInfo>): (r: (bool, string))
    ensures r.0 <==>
      && ImagePrefix + runningKernel !in packagesToRemove
      && ImagePrefix + latestKernel !in packagesToRemove
      && |ImagesIn(packagesToRemove)| < |allKernels|
      && |ImagesIn(packagesToRemove)| <= BulkLimit
    ensures r.0 ==> r.1 == ""
    ensures ImagePrefix + runningKernel in packagesToRemove ==> r.1 == RunningRemovedMessage(runningKernel)
    ensures ImagePrefix + runningKernel !in packagesToRemove && ImagePrefix + latestKernel in packagesToRemove ==>
      r.1 == LatestRemovedMessage(latestKernel)
    ensures (ImagePrefix + runningKernel !in packagesToRemove && ImagePrefix + latestKernel !in packagesToRemove &&
             |ImagesIn(packagesToRemove)| >= |allKernels|) ==> r.1 == NoneRemainMessage
    ensures (ImagePrefix + runningKernel !in packagesToRemove && ImagePrefix + latestKernel !in packagesToRemove &&
             |ImagesIn(packagesToRemove)| < |allKernels| && |ImagesIn(packagesToRemove)| > BulkLimit) ==>
      r.1 == BulkMessage(|ImagesIn(packagesToRemove)|)
  {
    var runningPkg := ImagePrefix + runningKernel;
    if runningPkg in packagesToRemove then (false, RunningRemovedMessage(runningKernel))
    else
      var latestPkg := ImagePrefix + latestKernel;
      if latestPkg in packagesToRemove then (false, LatestRemovedMessage(latestKernel))
      else
        var kernelImagesToRemove := ImagesIn(packagesToRemove);
        var remainingKernels := |allKernels| - |kernelImagesToRemove|;
        if remainingKernels < 1 then (false, NoneRemainMessage)
        else if |kernelImagesToRemove| > BulkLimit then (false, BulkMessage(|kernelImagesToRemove|))
        else (true, "")
  }

  /**
   * What `analyze_kernels(kernels)` returns or raises, as a function of the records' versions,
   * names and running flags.
   */
  function AnalysisOf(ks: seq<KernelInfo>): (r: Result<AnalysisResult>)
    reads ks
    ensures |ks| == 0 ==> r == Err(ValueError(NoKernelsMessage))
    ensures |ks| > 0 && FirstRunning(ks).None? ==> r == Err(ValueError(NoRunningMessage))
    ensures r.Ok? ==> FirstRunning(ks).Some? && r.value.obsoleteHeaders == []
    ensures r.Ok? ==> r.value.runningKernel == ks[FirstRunning(ks).value].version
    ensures r.Ok? ==> r.value.latestKernel == ks[LatestIndex(ks)].version
    ensures r.Ok? ==> r.value.obsoleteKernels == PackagesWhere(ks, ProtectedVersions(ks), false)
    ensures r.Ok? ==> r.value.protectedKernels == PackagesWhere(ks, ProtectedVersions(ks), true)
    ensures FirstRunning(ks).Some? ==>
      var verdict := ValidateRemovalSafety(PackagesWhere(ks, ProtectedVersions(ks), false),
                                           ks[FirstRunning(ks).value].version, ks[LatestIndex(ks)].version, ks);
      (r.Ok? <==> verdict.0) && (!verdict.0 ==> r == Err(ValueError(verdict.1)))
  {
    if |ks| == 0 then Err(ValueError(NoKernelsMessage))
    else
      match FirstRunning(ks)
      case None => Err(ValueError(NoRunningMessage))
      case Some(ri) =>
        var running := ks[ri].version;
        var latest := ks[LatestIndex(ks)].version;
        var protectedVersions := {running, latest};
        var obsoleteKernels := PackagesWhere(ks, protectedVersions, false);
        var protectedKernels := PackagesWhere(ks, protectedVersions, true);
        var verdict := ValidateRemovalSafety(obsoleteKernels, running, latest, ks);
        if !verdict.0 then Err(ValueError(verdict.1))
        else Ok(AnalysisResult(running, latest, obsoleteKernels, [], protectedKernels))
  }

  /** The versions the partition protects for a list whose running record has been found. */
  function ProtectedVersions(ks: seq<KernelInfo>): set<string>
    reads ks
    requires FirstRunning(ks).Some?
  {
    {ks[FirstRunning(ks).value].version, ks[LatestIndex(ks)].version}
  }

  /** `header.replace("linux-headers-", "")`. */
  function HeaderVersion(header: string): string {
    RemoveAll(header, HeaderPrefix)
  }

  /** The headers, in input order, whose version is not among the kept versions (lines 162-169). */
  function ObsoleteHeaders(headers: seq<string>, kernelVersions: set<string>): (r: seq<string>)
    ensures |r| <= |headers|
  {
    if |headers| == 0 then []
    else
      var last := headers[|headers| - 1];
      ObsoleteHeaders(headers[..|headers| - 1], kernelVersions) + (if HeaderVersion(last) !in kernelVersions then [last] else [])
  }

  // ----- The operations as the source writes them -----

  /**
   * `analyze_kernels`. Returns what `AnalysisOf` says of the records as they were on entry. Once
   * the running record is found, exactly the latest record gets `isLatest` set, even when the
   * safety gate then fails; no other flag of any record changes.
   */
  method AnalyzeKernels(kernels: seq<KernelInfo>) returns (r: Result<AnalysisResult>)
    modifies kernels
    ensures r == old(AnalysisOf(kernels))
    ensures forall k :: k in kernels ==> k.isRunning == old(k.isRunning)
    ensures old(FirstRunning(kernels)).None? ==> forall k :: k in kernels ==> k.isLatest == old(k.isLatest)
    ensures old(FirstRunning(kernels)).Some? ==>
      var latest := kernels[LatestIndex(kernels)];
      latest.isLatest && forall k :: k in kernels && k != latest ==> k.isLatest == old(k.isLatest)
  {
    if |kernels| == 0 {
      return Err(ValueError(NoKernelsMessage));
    }
    var running := FindRunning(kernels);
    if running == null {
      return Err(ValueError(NoRunningMessage));
    }
    var latest := FindLatest(kernels);
    latest.isLatest := true;
    var protectedVersions := {running.version, latest.version};
    var protectedKernels, obsoleteKernels := Partition(kernels, protectedVersions);
    var verdict := ValidateRemovalSafety(obsoleteKernels, running.version, latest.version, kernels);
    if !verdict.0 {
      return Err(ValueError(verdict.1));
    }
    return Ok(AnalysisResult(running.version, latest.version, obsoleteKernels, [], protectedKernels));
  }

  /** The search loop of lines 99-102: the first record flagged running, or none. */
  method FindRunning(kernels: seq<KernelInfo>) returns (running: KernelInfo?)
    ensures running == null <==> FirstRunning(kernels).None?
    ensures running != null ==> running == kernels[FirstRunning(kernels).value]
  {
    var i := 0;
    while i < |kernels|
      invariant 0 <= i <= |kernels|
      invariant forall j :: 0 <= j < i ==> !kernels[j].isRunning
    {
      if kernels[i].isRunning {
        assert FirstRunning(kernels) == Some(i);
        return kernels[i];
      }
      i := i + 1;
    }
    return null;
  }

  /** The fold of lines 108-111: the record `LatestIndex` picks. */
  method FindLatest(kernels: seq<KernelInfo>) returns (latest: KernelInfo)
    requires |kernels| > 0
    ensures latest == kernels[LatestIndex(kernels)]
  {
    latest := kernels[0];
    ghost var li := 0;
    var n := 1;
    while n < |kernels|
      invariant 1 <= n <= |kernels|
      invariant li == LatestIndex(kernels[..n]) && latest == kernels[li]
    {
      if CompareKernelVersions(kernels[n].version, latest.version) > 0 {
        latest := kernels[n];
        li := n;
      }
      assert kernels[..n + 1][..n] == kernels[..n];
      n := n + 1;
    }
    assert kernels[..|kernels|] == kernels;
  }

  /** The partition loop of lines 120-124: protected and obsolete package names, in input order. */
  method Partition(kernels: seq<KernelInfo>, protectedVersions: set<string>)
      returns (protectedKernels: seq<string>, obsoleteKernels: seq<string>)
    ensures protectedKernels == PackagesWhere(kernels, protectedVersions, true)
    ensures obsoleteKernels == PackagesWhere(kernels, protectedVersions, false)
  {
    protectedKernels, obsoleteKernels := [], [];
    var n := 0;
    while n < |kernels|
      invariant 0 <= n <= |kernels|
      invariant obsoleteKernels == PackagesWhere(kernels[..n], protectedVersions, false)
      invariant protectedKernels == PackagesWhere(kernels[..n], protectedVersions, true)
    {
      assert kernels[..n + 1][..n] == kernels[..n];
      if kernels[n].version in protectedVersions {
        protectedKernels := protectedKernels + [kernels[n].packageName];
      } else {
        obsoleteKernels := obsoleteKernels + [kernels[n].packageName];
      }
      n := n + 1;
    }
    assert kernels[..|kernels|] == kernels;
  }

  /**
   * `match_headers_to_kernels`: the headers whose version, after removing `linux-headers-`, is
   * not one of the kept versions, in input order. Membership is exact.
   */
  method MatchHeadersToKernels(headers: seq<string>, kernelVersions: set<string>) returns (obsoleteHeaders: seq<string>)
    ensures obsoleteHeaders == ObsoleteHeaders(headers, kernelVersions)
    ensures forall h :: h in obsoleteHeaders <==> h in headers && HeaderVersion(h) !in kernelVersions
  {
    obsoleteHeaders := [];
    var i := 0;
    while i < |headers|
      invariant 0 <= i <= |headers|
      invariant obsoleteHeaders == ObsoleteHeaders(headers[..i], kernelVersions)
    {
      assert headers[..i + 1][..i] == headers[..i];
      var version := HeaderVersion(headers[i]);
      if version !in kernelVersions {
        obsoleteHeaders := obsoleteHeaders + [headers[i]];
      }
      i := i + 1;
    }
    assert headers[..|headers|] == headers;
    forall h ensures h in obsoleteHeaders <==> h in headers && HeaderVersion(h) !in kernelVersions {
      ObsoleteHeadersMembership(headers, kernelVersions, h);
    }
  }

  /**
   * `get_protected_packages`: the image and header package names of the running and the latest
   * kernel; two names when they are the same kernel, four otherwise.
   */
  method GetProtectedPackages(runningKernel: string, latestKernel: string) returns (protected: set<string>)
    ensures protected == {ImagePrefix + runningKernel, HeaderPrefix + runningKernel,
                          ImagePrefix + latestKernel, HeaderPrefix + latestKernel}
    ensures |protected| == if runningKernel == latestKernel then 2 else 4
  {
    PrefixedNamesDistinct(runningKernel, latestKernel);
    PrefixedNamesDistinct(latestKernel, runningKernel);
    protected := {};
    protected := protected + {ImagePrefix + runningKernel};
    protected := protected + {HeaderPrefix + runningKernel};
    assert |protected| == 2;
    assert ImagePrefix + latestKernel in protected <==> runningKernel == latestKernel;
    protected := protected + {ImagePrefix + latestKernel};
    assert |protected| == if runningKernel == latestKernel then 2 else 3;
    assert HeaderPrefix + latestKernel in protected <==> runningKernel == latestKernel;
    protected := protected + {HeaderPrefix + latestKernel};
  }

  // ----- Properties of the pieces -----

  /** Image and header names never collide, and each prefix determines the version. */
  lemma PrefixedNamesDistinct(a: string, b: string)
    ensures ImagePrefix + a != HeaderPrefix + b
    ensures ImagePrefix + a == ImagePrefix + b <==> a == b
    ensures HeaderPrefix + a == HeaderPrefix + b <==> a == b
  {
    assert (ImagePrefix + a)[6] == 'i' && (HeaderPrefix + b)[6] == 'h';
    PrefixCancels(ImagePrefix, a, b);
    PrefixCancels(HeaderPrefix, a, b);
  }

  /** Whatever the comparison, no record after the chosen one compares greater than it. */
  lemma {:induction false} LaterNotNewer(ks: seq<KernelInfo>, newer: (string, string) -> int, j: nat)
    requires |ks| > 0 && LatestBy(ks, newer) < j < |ks|
    ensures newer(ks[j].version, ks[LatestBy(ks, newer)].version) <= 0
    decreases |ks|
  {
    var init := ks[..|ks| - 1];
    if j < |ks| - 1 {
      LaterNotNewer(init, newer, j);
      assert init[j] == ks[j];
    }
  }

  /** `newer` is antisymmetric, and transitive (strictly so after a strict step) on `dom`. */
  ghost predicate OrdersOn(newer: (string, string) -> int, dom: string -> bool) {
    && (forall a, b {:trigger newer(a, b), newer(b, a)} :: newer(a, b) == -newer(b, a))
    && (forall a, b, c {:trigger newer(a, b), newer(b, c), newer(a, c)} ::
          (dom(a) && dom(b) && dom(c) && newer(a, b) <= 0 && newer(b, c) <= 0) ==>
          (newer(a, c) <= 0 && (newer(a, b) < 0 || newer(b, c) < 0 ==> newer(a, c) < 0)))
  }

  /**
   * Under an order on the records' versions, the fold finds a newest record, and the earliest
   * of them: every earlier record is strictly older.
   */
  lemma {:induction false} LatestByIsNewest(ks: seq<KernelInfo>, newer: (string, string) -> int, dom: string -> bool, j: nat)
    requires |ks| > 0 && j < |ks| && OrdersOn(newer, dom)
    requires forall i :: 0 <= i < |ks| ==> dom(ks[i].version)
    ensures newer(ks[j].version, ks[LatestBy(ks, newer)].version) <= 0
    ensures j < LatestBy(ks, newer) ==> newer(ks[j].version, ks[LatestBy(ks, newer)].version) < 0
    decreases |ks|
  {
    var v := ks[j].version;
    if |ks| == 1 {
      assert newer(v, v) == -newer(v, v);
    } else {
      var last := |ks| - 1;
      var init := ks[..last];
      var c := LatestBy(init, newer);
      var top, mid := ks[last].version, ks[c].version;
      assert init[c] == ks[c];
      assert newer(top, mid) == -newer(mid, top);
      if j < last {
        assert init[j] == ks[j];
        LatestByIsNewest(init, newer, dom, j);
      } else {
        assert newer(v, v) == -newer(v, v);
      }
    }
  }

  /** With all versions numeric, the record marked latest is the earliest of the newest. */
  lemma LatestIsNewest(ks: seq<KernelInfo>)
    requires |ks| > 0
    requires forall j :: 0 <= j < |ks| ==> HasKey(ks[j].version)
    ensures forall j :: 0 <= j < |ks| ==> CompareKernelVersions(ks[j].version, ks[LatestIndex(ks)].version) <= 0
    ensures forall j :: 0 <= j < LatestIndex(ks) ==> CompareKernelVersions(ks[j].version, ks[LatestIndex(ks)].version) < 0
  {
    CompareOrdersKeyed();
    forall j | 0 <= j < |ks|
      ensures CompareKernelVersions(ks[j].version, ks[LatestIndex(ks)].version) <= 0
      ensures j < LatestIndex(ks) ==> CompareKernelVersions(ks[j].version, ks[LatestIndex(ks)].version) < 0
    {
      LatestByIsNewest(ks, CompareKernelVersions, HasKey, j);
    }
  }

  /** `compare_kernel_versions` orders the versions that have a numeric key. */
  lemma CompareOrdersKeyed()
    ensures OrdersOn(CompareKernelVersions, HasKey)
  {
    forall a, b ensures CompareKernelVersions(a, b) == -CompareKernelVersions(b, a) {
      CompareAntisymmetric(a, b);
    }
    forall a, b, c | HasKey(a) && HasKey(b) && HasKey(c) && CompareKernelVersions(a, b) <= 0 && CompareKernelVersions(b, c) <= 0
      ensures CompareKernelVersions(a, c) <= 0 && (CompareKernelVersions(a, b) < 0 || CompareKernelVersions(b, c) < 0 ==> CompareKernelVersions(a, c) < 0)
    {
      CompareTransitive(a, b, c);
    }
  }

  /** The partition is a filter: it commutes with concatenation and so keeps input order. */
  lemma {:induction false} PackagesWhereAppend(a: seq<KernelInfo>, b: seq<KernelInfo>, versions: set<string>, keep: bool)
    ensures PackagesWhere(a + b, versions, keep) == PackagesWhere(a, versions, keep) + PackagesWhere(b, versions, keep)
    decreases |b|
  {
    if |b| == 0 {
      assert a + b == a;
    } else {
      var b' := b[..|b| - 1];
      assert (a + b)[..|a + b| - 1] == a + b';
      PackagesWhereAppend(a, b', versions, keep);
    }
  }

  /** A package is on the `keep` side exactly when some record with that name has a matching version. */
  lemma {:induction false} PackagesWhereMembership(ks: seq<KernelInfo>, versions: set<string>, keep: bool, x: string)
    ensures x in PackagesWhere(ks, versions, keep) <==>
      exists j :: 0 <= j < |ks| && ks[j].packageName == x && (ks[j].version in versions) == keep
    decreases |ks|
  {
    if |ks| > 0 {
      var init := ks[..|ks| - 1];
      PackagesWhereMembership(init, versions, keep, x);
      assert forall j :: 0 <= j < |init| ==> init[j] == ks[j];
    }
  }

  /** Every record lands on exactly one side: the two sides together are the input's names. */
  lemma {:induction false} PartitionCovers(ks: seq<KernelInfo>, versions: set<string>)
    ensures multiset(PackagesWhere(ks, versions, true)) + multiset(PackagesWhere(ks, versions, false)) == multiset(PackageNames(ks))
    ensures |PackagesWhere(ks, versions, true)| + |PackagesWhere(ks, versions, false)| == |ks|
    decreases |ks|
  {
    if |ks| > 0 {
      PartitionCovers(ks[..|ks| - 1], versions);
    }
  }

  /** Every record's package is the image package of its version, as dpkg names them. */
  predicate WellNamed(ks: seq<KernelInfo>) {
    forall j :: 0 <= j < |ks| ==> ks[j].packageName == ImagePrefix + ks[j].version
  }

  /** With well-named records, the image of a kept version is never on the obsolete side. */
  lemma ProtectedNeverObsolete(ks: seq<KernelInfo>, versions: set<string>, v: string)
    requires WellNamed(ks) && v in versions
    ensures ImagePrefix + v !in PackagesWhere(ks, versions, false)
  {
    PackagesWhereMembership(ks, versions, false, ImagePrefix + v);
    if ImagePrefix + v in PackagesWhere(ks, versions, false) {
      var j :| 0 <= j < |ks| && ks[j].packageName == ImagePrefix + v && ks[j].version !in versions;
      PrefixedNamesDistinct(ks[j].version, v);
      assert false;
    }
  }

  /** With well-named records, every obsolete entry counts as an image for the safety gate. */
  lemma ObsoleteAreImages(ks: seq<KernelInfo>, versions: set<string>)
    requires WellNamed(ks)
    ensures ImagesIn(PackagesWhere(ks, versions, false)) == PackagesWhere(ks, versions, false)
  {
    var obsolete := PackagesWhere(ks, versions, false);
    forall i | 0 <= i < |obsolete|
      ensures Contains(obsolete[i], ImagePrefix)
    {
      PackagesWhereMembership(ks, versions, false, obsolete[i]);
      var j :| 0 <= j < |ks| && ks[j].packageName == obsolete[i] && ks[j].version !in versions;
      ContainsInfix("", ImagePrefix, ks[j].version);
      assert "" + ImagePrefix + ks[j].version == obsolete[i];
    }
    ImagesInAll(obsolete);
  }

  /** A record whose version is kept leaves at least one package off the obsolete side. */
  lemma SomeKernelRemains(ks: seq<KernelInfo>, versions: set<string>, i: nat)
    requires i < |ks| && ks[i].version in versions
    ensures |PackagesWhere(ks, versions, false)| < |ks|
  {
    PackagesWhereMembership(ks, versions, true, ks[i].packageName);
    PartitionCovers(ks, versions);
  }

  /**
   * With well-named records and a running one, the running and latest images are never offered
   * for removal and a kernel always remains, so the bulk limit is the only check that can fail.
   */
  lemma WellNamedAnalysis(ks: seq<KernelInfo>)
    requires |ks| > 0 && FirstRunning(ks).Some? && WellNamed(ks)
    ensures var obsolete := PackagesWhere(ks, ProtectedVersions(ks), false);
      && ImagePrefix + ks[FirstRunning(ks).value].version !in obsolete
      && ImagePrefix + ks[LatestIndex(ks)].version !in obsolete
      && (AnalysisOf(ks).Ok? <==> |obsolete| <= BulkLimit)
      && (AnalysisOf(ks).Err? ==> AnalysisOf(ks) == Err(ValueError(BulkMessage(|obsolete|))))
  {
    var versions := ProtectedVersions(ks);
    var running, latest := ks[FirstRunning(ks).value].version, ks[LatestIndex(ks)].version;
    ProtectedNeverObsolete(ks, versions, running);
    ProtectedNeverObsolete(ks, versions, latest);
    ObsoleteAreImages(ks, versions);
    SomeKernelRemains(ks, versions, FirstRunning(ks).value);
  }

  /** A successful analysis never offers the running or latest image and leaves a kernel. */
  lemma SuccessIsSafe(ks: seq<KernelInfo>)
    requires AnalysisOf(ks).Ok?
    ensures var r := AnalysisOf(ks).value;
      && ImagePrefix + r.runningKernel !in r.obsoleteKernels
      && ImagePrefix + r.latestKernel !in r.obsoleteKernels
      && |ImagesIn(r.obsoleteKernels)| < |ks|
      && |ImagesIn(r.obsoleteKernels)| <= BulkLimit
  {
    var running, latest := ks[FirstRunning(ks).value].version, ks[LatestIndex(ks)].version;
    assert ValidateRemovalSafety(PackagesWhere(ks, {running, latest}, false), running, latest, ks).0;
  }

  /** The image filter commutes with concatenation. */
  lemma {:induction false} ImagesInAppend(a: seq<string>, b: seq<string>)
    ensures ImagesIn(a + b) == ImagesIn(a) + ImagesIn(b)
    decreases |b|
  {
    if |b| == 0 {
      assert a + b == a;
    } else {
      var b' := b[..|b| - 1];
      assert (a + b)[..|a + b| - 1] == a + b';
      ImagesInAppend(a, b');
    }
  }

  /** Entries that all contain `linux-image-` are all counted. */
  lemma {:induction false} ImagesInAll(packages: seq<string>)
    requires forall i :: 0 <= i < |packages| ==> Contains(packages[i], ImagePrefix)
    ensures ImagesIn(packages) == packages
    decreases |packages|
  {
    if |packages| > 0 {
      ImagesInAll(packages[..|packages| - 1]);
      assert packages == packages[..|packages| - 1] + [packages[|packages| - 1]];
    }
  }

  /** Entries none of which contains `linux-image-` are not counted at all. */
  lemma {:induction false} ImagesInNone(packages: seq<string>)
    requires forall i :: 0 <= i < |packages| ==> !Contains(packages[i], ImagePrefix)
    ensures ImagesIn(packages) == []
    decreases |packages|
  {
    if |packages| > 0 {
      ImagesInNone(packages[..|packages| - 1]);
    }
  }

  /** The header filter commutes with concatenation and so keeps input order. */
  lemma {:induction false} ObsoleteHeadersAppend(a: seq<string>, b: seq<string>, kernelVersions: set<string>)
    ensures ObsoleteHeaders(a + b, kernelVersions) == ObsoleteHeaders(a, kernelVersions) + ObsoleteHeaders(b, kernelVersions)
    decreases |b|
  {
    if |b| == 0 {
      assert a + b == a;
    } else {
      var b' := b[..|b| - 1];
      assert (a + b)[..|a + b| - 1] == a + b';
      ObsoleteHeadersAppend(a, b', kernelVersions);
    }
  }

  /** A header is reported exactly when it is installed and its version is not kept. */
  lemma {:induction false} ObsoleteHeadersMembership(headers: seq<string>, kernelVersions: set<string>, h: string)
    ensures h in ObsoleteHeaders(headers, kernelVersions) <==> h in headers && HeaderVersion(h) !in kernelVersions
    decreases |headers|
  {
    if |headers| > 0 {
      var init := headers[..|headers| - 1];
      ObsoleteHeadersMembership(init, kernelVersions, h);
      assert headers == init + [headers[|headers| - 1]];
    }
  }

  /** The version of a canonical header name is the text after `linux-headers-`. */
  lemma CanonicalHeaderVersion(version: string)
    requires !Contains(version, HeaderPrefix)
    ensures HeaderVersion(HeaderPrefix + version) == version
  {
    RemoveAllLeading(HeaderPrefix, version);
    RemoveAllAbsent(version, HeaderPrefix);
  }

  /** A single canonical header is kept exactly when its version is in the keep set: no leniency. */
  lemma HeaderMatchIsExact(version: string, kernelVersions: set<string>)
    requires !Contains(version, HeaderPrefix)
    ensures ObsoleteHeaders([HeaderPrefix + version], kernelVersions) ==
      if version in kernelVersions then [] else [HeaderPrefix + version]
  {
    CanonicalHeaderVersion(version);
    assert [HeaderPrefix + version][..0] == [];
  }

  /** The `-lowlatency` header is reported when only the `-generic` kernel is kept. */
  lemma LowlatencyHeaderNotKeptByGeneric()
    ensures ObsoleteHeaders([HeaderPrefix + "5.15.0-82-lowlatency"], {"5.15.0-82-generic"}) ==
      [HeaderPrefix + "5.15.0-82-lowlatency"]
  {
    NotContainsWithoutChar("5.15.0-82-lowlatency", HeaderPrefix, 'h');
    HeaderMatchIsExact("5.15.0-82-lowlatency", {"5.15.0-82-generic"});
  }

  /** A `-common` header is matched exactly too, so it is reported next to its flavoured kernel. */
  lemma CommonHeaderIsReported()
    ensures ObsoleteHeaders([HeaderPrefix + "6.12.48+deb13-common"], {"6.12.48+deb13-amd64"}) ==
      [HeaderPrefix + "6.12.48+deb13-common"]
  {
    NotContainsWithoutChar("6.12.48+deb13-common", HeaderPrefix, 'h');
    HeaderMatchIsExact("6.12.48+deb13-common", {"6.12.48+deb13-amd64"});
  }

  /** The check names the running version when the running image is in the plan. */
  lemma RunningRemovedNamesVersion(version: string)
    ensures Contains(RunningRemovedMessage(version), "Running kernel")
    ensures Contains(RunningRemovedMessage(version), version)
  {
    var lead, tail := "Safety check failed: ", " is marked for removal";
    RunningRemovedLead();
    assert RunningRemovedMessage(version) == lead + "Running kernel" + (" " + version + tail);
    ContainsInfix(lead, "Running kernel", " " + version + tail);
    ContainsInfix(lead + "Running kernel" + " ", version, tail);
  }

  lemma RunningRemovedLead()
    ensures "Safety check failed: Running kernel " == "Safety check failed: " + "Running kernel" + " "
  {
  }

  /** The check names the latest version when the latest image is in the plan. */
  lemma LatestRemovedNamesVersion(version: string)
    ensures Contains(LatestRemovedMessage(version), "Latest kernel")
    ensures Contains(LatestRemovedMessage(version), version)
  {
    var lead, tail := "Safety check failed: ", " is marked for removal";
    LatestRemovedLead();
    assert LatestRemovedMessage(version) == lead + "Latest kernel" + (" " + version + tail);
    ContainsInfix(lead, "Latest kernel", " " + version + tail);
    ContainsInfix(lead + "Latest kernel" + " ", version, tail);
  }

  lemma LatestRemovedLead()
    ensures "Safety check failed: Latest kernel " == "Safety check failed: " + "Latest kernel" + " "
  {
  }

  /** The bulk refusal names the exact count, in decimal, and calls it excessive. */
  lemma BulkMessageNamesCount(count: nat)
    ensures Contains(BulkMessage(count), NatToDecimal(count) + " kernels")
    ensures Contains(BulkMessage(count), "excessive")
  {
    var lead, middle := "Safety check warning: Attempting to remove ", " at once. This seems ";
    var counted := NatToDecimal(count) + " kernels";
    BulkTail();
    assert BulkMessage(count) == lead + counted + (middle + "excessive" + ".");
    assert BulkMessage(count) == lead + counted + middle + "excessive" + ".";
    ContainsInfix(lead, counted, middle + "excessive" + ".");
    ContainsInfix(lead + counted + middle, "excessive", ".");
  }

  lemma BulkTail()
    ensures " kernels at once. This seems excessive." == " kernels" + (" at once. This seems " + "excessive" + ".")
  {
    BulkTailWords();
    assert " kernels at once. This seems excessive." == " kernels" + " at once. This seems excessive.";
  }

  lemma BulkTailWords()
    ensures " at once. This seems excessive." == " at once. This seems " + "excessive" + "."
  {
  }

  /** Entries without `linux-image-` (header packages, say) never change the safety verdict. */
  lemma SafetyIgnoresNonImages(packagesToRemove: seq<string>, others: seq<string>, runningKernel: string,
                               latestKernel: string, allKernels: seq<KernelInfo>)
    requires forall i :: 0 <= i < |others| ==> !Contains(others[i], ImagePrefix)
    ensures ValidateRemovalSafety(packagesToRemove + others, runningKernel, latestKernel, allKernels) ==
            ValidateRemovalSafety(packagesToRemove, runningKernel, latestKernel, allKernels)
  {
    ImagesInAppend(packagesToRemove, others);
    ImagesInNone(others);
    assert ImagesIn(packagesToRemove + others) == ImagesIn(packagesToRemove);
    ContainsInfix("", ImagePrefix, runningKernel);
    ContainsInfix("", ImagePrefix, latestKernel);
    assert "" + ImagePrefix + runningKernel == ImagePrefix + runningKernel;
    assert "" + ImagePrefix + latestKernel == ImagePrefix + latestKernel;
    assert ImagePrefix + runningKernel !in others;
    assert ImagePrefix + latestKernel !in others;
  }
}
