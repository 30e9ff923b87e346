/** The command-line entry point of the desktop client: argument parsing,
    the choice of server address and home directory, and the callbacks that
    feed the status registry. Running `adb` is a function passed in. */
module Launcher {
  import opened Common
  import opened StatusServer

  // ---------------------------------------------------------------------
  // Arguments

  /** Position `i` starts a flag/value pair: the flag starts with "-", a
      next argument exists, and it does not start with "-". */
  predicate IsPair(args: seq<string>, i: int) {
    0 <= i && i + 1 < |args| && StartsWith(args[i], "-") && !StartsWith(args[i + 1], "-")
  }

  /** The parameters recorded from the pairs that start before position
      `n`, a later pair overriding an earlier one with the same flag. */
  function PairsBefore(args: seq<string>, n: nat): map<string, string>
    requires n <= |args|
  {
    if n == 0 then map[]
    else if IsPair(args, n - 1) then PairsBefore(args, n - 1)[args[n - 1] := args[n]]
    else PairsBefore(args, n - 1)
  }

  /** `parseArguments`: scan the arguments, record each flag/value pair and
      skip over the consumed value. */
  method ParseArguments(args: seq<string>) returns (params: map<string, string>)
    ensures params == PairsBefore(args, |args|)
  {
    params := map[];
    var i := 0;
    while i < |args|
      invariant 0 <= i <= |args|
      invariant params == PairsBefore(args, i)
    {
      if StartsWith(args[i], "-") && i + 1 < |args| && !StartsWith(args[i + 1], "-") {
        params := params[args[i] := args[i + 1]];
        assert !IsPair(args, i + 1);
        i := i + 2;
      } else {
        i := i + 1;
      }
    }
  }

  /** A flag is recorded exactly when some position holds it as the flag of
      a pair; a trailing flag, or one followed by another flag, is not. */
  lemma {:induction false} RecordedIffPair(args: seq<string>, n: nat, k: string)
    requires n <= |args|
    ensures k in PairsBefore(args, n) <==> exists i | 0 <= i < n :: IsPair(args, i) && args[i] == k
  {
    if n > 0 {
      RecordedIffPair(args, n - 1, k);
    }
  }

  /** The recorded value is the one after the last pair with that flag. */
  lemma {:induction false} LastOccurrenceWins(args: seq<string>, n: nat, i: nat)
    requires n <= |args| && i < n && IsPair(args, i)
    requires forall j | i < j < n :: !(IsPair(args, j) && args[j] == args[i])
    ensures args[i] in PairsBefore(args, n) && PairsBefore(args, n)[args[i]] == args[i + 1]
  {
    if n - 1 != i {
      LastOccurrenceWins(args, n - 1, i);
    }
  }

  /** A value is never read as a flag: a position that holds a consumed
      value is not itself the start of a pair. */
  lemma ValueNeverFlag(args: seq<string>, i: nat)
    requires IsPair(args, i)
    ensures !IsPair(args, i + 1)
  {
  }

  lemma NotFlag(s: string)
    requires |s| > 0 && s[0] != '-'
    ensures !StartsWith(s, "-")
  {
    assert s[..1][0] == s[0];
  }

  lemma ParseExamples()
    ensures PairsBefore(["-c", "adb", "-s", "dev1"], 4) == map["-c" := "adb", "-s" := "dev1"]
    ensures PairsBefore(["-c"], 1) == map[]
    ensures PairsBefore(["-c", "-home_dir", "/x"], 3) == map["-home_dir" := "/x"]
    ensures PairsBefore(["-c", "a", "-c", "b"], 4) == map["-c" := "b"]
  {
    assert StartsWith("-c", "-") && StartsWith("-s", "-") && StartsWith("-home_dir", "-");
    NotFlag("adb");
    NotFlag("dev1");
    NotFlag("/x");
    NotFlag("a");
    NotFlag("b");
    assert PairsBefore(["-c", "a", "-c", "b"], 4) == map["-c" := "a"]["-c" := "b"];
  }

  // ---------------------------------------------------------------------
  // Launch decision

  const ControlPort: int := 5740
  const StatusServerPort: int := 5741
  const Localhost: string := "127.0.0.1"

  datatype Launch =
    | Usage
    | AdbForwardFailed
    | Connect(address: string, port: int, homeDir: string)

  /** The value of a flag, when it was given. */
  function Param(params: map<string, string>, flag: string): (r: Option<string>)
    ensures r.Some? <==> flag in params
    ensures r.Some? ==> r.value == params[flag]
  {
    if flag in params then Some(params[flag]) else None
  }

  /** The decision in `main`: without `-c` only the usage text; with
      `-c adb` the loopback address, provided the port forward (for the
      device named by `-s`, if any) succeeds; otherwise the `-c` value as
      the address. The home directory defaults to "/". */
  function Decide(params: map<string, string>, adbForward: Option<string> -> bool): (r: Launch)
    ensures r.Usage? <==> "-c" !in params
    ensures r.AdbForwardFailed? <==> "-c" in params && params["-c"] == "adb" && !adbForward(Param(params, "-s"))
    ensures r.Connect? ==> r.port == ControlPort
    ensures r.Connect? ==> r.homeDir == if "-home_dir" in params then params["-home_dir"] else "/"
    ensures r.Connect? && params["-c"] == "adb" ==> r.address == Localhost
    ensures r.Connect? && params["-c"] != "adb" ==> r.address == params["-c"]
  {
    var homeDir := match Param(params, "-home_dir") case Some(d) => d case None => "/";
    match Param(params, "-c")
    case None => Usage
    case Some(c) =>
      if c == "adb" then
        if adbForward(Param(params, "-s")) then Connect(Localhost, ControlPort, homeDir) else AdbForwardFailed
      else Connect(c, ControlPort, homeDir)
  }

  lemma DecideExamples(adbForward: Option<string> -> bool)
    requires adbForward(Some("dev1"))
    ensures Decide(map["-c" := "adb", "-s" := "dev1"], adbForward) == Connect("127.0.0.1", 5740, "/")
    ensures Decide(map["-c" := "192.168.1.2", "-home_dir" := "/sdcard"], adbForward) == Connect("192.168.1.2", 5740, "/sdcard")
    ensures Decide(map["-s" := "dev1"], adbForward) == Usage
  {
  }

  // ---------------------------------------------------------------------
  // Callbacks into the registry

  /** The progress reported for `targetSize` of `totalSize` bytes:
      `target / total * 100` when the total is positive, else 0. */
  function TransferProgress(targetSize: int, totalSize: int): (r: real)
    ensures totalSize <= 0 ==> r == 0.0
    ensures totalSize > 0 && 0 <= targetSize <= totalSize ==> 0.0 <= r <= 100.0
    ensures totalSize > 0 ==> (r == 100.0 <==> targetSize == totalSize)
    ensures totalSize > 0 ==> (r > 0.0 <==> targetSize > 0)
  {
    if totalSize > 0 then targetSize as real / totalSize as real * 100.0 else 0.0
  }

  /** `onFileUploading` / `onFileDownloading`: one registry update. */
  function OnFileProgress(q: seq<TransferStatus>, path: string, targetSize: int, totalSize: int, upload: bool): (r: seq<TransferStatus>)
    ensures |r| >= 1 && r[|r| - 1].path == path
    ensures r[|r| - 1].kind == if upload then "upload" else "download"
    ensures r[|r| - 1].progress == TransferProgress(targetSize, totalSize)
    ensures forall i | 0 <= i < |r| - 1 :: Finished(r[i]) && r[i].path != path
  {
    UpdateTransferStatus(q, TransferStatus(path, TransferProgress(targetSize, totalSize), targetSize as real,
      totalSize as real, if upload then "upload" else "download"))
  }

  /** One entry of a speed report: the channel name, which may be null,
      and the upload and download figures. */
  type SpeedReport = (Option<string>, real, real)

  /** The figures of the last report that names channel `c`; reports
      without a channel name never count. */
  function LastReport(rs: seq<SpeedReport>, c: string): Option<(real, real)> {
    if rs == [] then None
    else if rs[|rs| - 1].0 == Some(c) then Some((rs[|rs| - 1].1, rs[|rs| - 1].2))
    else LastReport(rs[..|rs| - 1], c)
  }

  /** `LastReport` finds no report exactly when none names the channel;
      when it finds one, that report names the channel and no later one
      does. */
  lemma {:induction false} LastReportIsLast(rs: seq<SpeedReport>, c: string)
    ensures LastReport(rs, c).None? <==> forall k | 0 <= k < |rs| :: rs[k].0 != Some(c)
    ensures LastReport(rs, c).Some? ==>
              exists k | 0 <= k < |rs| :: rs[k] == (Some(c), LastReport(rs, c).value.0, LastReport(rs, c).value.1)
                                         && forall l | k < l < |rs| :: rs[l].0 != Some(c)
  {
    if rs != [] && rs[|rs| - 1].0 != Some(c) {
      var init := rs[..|rs| - 1];
      LastReportIsLast(init, c);
      assert forall k | 0 <= k < |init| :: init[k] == rs[k];
    }
  }

  /** The speed list `r` after the reports `rs` reached the list `q`: each
      entry of a channel that some report names carries the figures of the
      last such report, every other entry comes from `q`, every entry of
      `q` for a channel no report names is kept, and every named channel
      has its entry. */
  ghost predicate ReportsApplied(q: seq<SpeedInfo>, rs: seq<SpeedReport>, r: seq<SpeedInfo>) {
    && (forall i | 0 <= i < |r| ::
          match LastReport(rs, r[i].channel)
          case None => r[i] in q
          case Some(v) => r[i].upload == v.0 && r[i].download == v.1)
    && (forall j | 0 <= j < |q| && LastReport(rs, q[j].channel).None? :: q[j] in r)
    && (forall c | LastReport(rs, c).Some? ::
          SpeedInfo(c, LastReport(rs, c).value.0, LastReport(rs, c).value.1) in r)
  }

  /** One more report: a report naming `c` gives its figures, any other
      report leaves the earlier answer. */
  lemma LastReportSnoc(rs: seq<SpeedReport>, c: string)
    requires rs != []
    ensures LastReport(rs, c) == if rs[|rs| - 1].0 == Some(c) then Some((rs[|rs| - 1].1, rs[|rs| - 1].2))
                                 else LastReport(rs[..|rs| - 1], c)
  {
  }

  /** One more report keeps `ReportsApplied`. */
  lemma ReportStep(q: seq<SpeedInfo>, rs: seq<SpeedReport>, r0: seq<SpeedInfo>)
    requires rs != [] && ReportsApplied(q, rs[..|rs| - 1], r0)
    ensures ReportsApplied(q, rs, UpdateSpeedInfo(r0, rs[|rs| - 1].0, rs[|rs| - 1].1, rs[|rs| - 1].2))
  {
    var last := rs[|rs| - 1];
    if last.0.Some? {
      ReportStepEntries(q, rs, r0);
      ReportStepKept(q, rs, r0);
      ReportStepNamed(q, rs, r0);
    } else {
      forall c { LastReportSnoc(rs, c); }
    }
  }

  lemma ReportStepEntries(q: seq<SpeedInfo>, rs: seq<SpeedReport>, r0: seq<SpeedInfo>)
    requires rs != [] && rs[|rs| - 1].0.Some? && ReportsApplied(q, rs[..|rs| - 1], r0)
    ensures var r := UpdateSpeedInfo(r0, rs[|rs| - 1].0, rs[|rs| - 1].1, rs[|rs| - 1].2);
      forall i | 0 <= i < |r| ::
        match LastReport(rs, r[i].channel)
        case None => r[i] in q
        case Some(v) => r[i].upload == v.0 && r[i].download == v.1
  {
    var last := rs[|rs| - 1];
    var r := UpdateSpeedInfo(r0, last.0, last.1, last.2);
    forall i | 0 <= i < |r|
      ensures match LastReport(rs, r[i].channel)
              case None => r[i] in q
              case Some(v) => r[i].upload == v.0 && r[i].download == v.1
    {
      LastReportSnoc(rs, r[i].channel);
      if i < |r| - 1 {
        var i0 :| 0 <= i0 < |r0| && r0[i0] == r[i];
      }
    }
  }

  lemma ReportStepKept(q: seq<SpeedInfo>, rs: seq<SpeedReport>, r0: seq<SpeedInfo>)
    requires rs != [] && rs[|rs| - 1].0.Some? && ReportsApplied(q, rs[..|rs| - 1], r0)
    ensures var r := UpdateSpeedInfo(r0, rs[|rs| - 1].0, rs[|rs| - 1].1, rs[|rs| - 1].2);
      forall j | 0 <= j < |q| && LastReport(rs, q[j].channel).None? :: q[j] in r
  {
    var last := rs[|rs| - 1];
    var r := UpdateSpeedInfo(r0, last.0, last.1, last.2);
    forall j | 0 <= j < |q| && LastReport(rs, q[j].channel).None? ensures q[j] in r {
      LastReportSnoc(rs, q[j].channel);
    }
  }

  lemma ReportStepNamed(q: seq<SpeedInfo>, rs: seq<SpeedReport>, r0: seq<SpeedInfo>)
    requires rs != [] && rs[|rs| - 1].0.Some? && ReportsApplied(q, rs[..|rs| - 1], r0)
    ensures var r := UpdateSpeedInfo(r0, rs[|rs| - 1].0, rs[|rs| - 1].1, rs[|rs| - 1].2);
      forall c | LastReport(rs, c).Some? ::
        SpeedInfo(c, LastReport(rs, c).value.0, LastReport(rs, c).value.1) in r
  {
    var last := rs[|rs| - 1];
    var r := UpdateSpeedInfo(r0, last.0, last.1, last.2);
    forall c | LastReport(rs, c).Some?
      ensures SpeedInfo(c, LastReport(rs, c).value.0, LastReport(rs, c).value.1) in r
    {
      LastReportSnoc(rs, c);
    }
  }

  /** `onSpeedInfo`: each report with a channel name updates the speed
      list in turn; a missing list changes nothing. */
  function OnSpeedInfo(q: seq<SpeedInfo>, reports: Option<seq<SpeedReport>>): (r: seq<SpeedInfo>)
    ensures reports.None? ==> r == q
    ensures reports.Some? ==> ReportsApplied(q, reports.value, r)
    decreases if reports.Some? then |reports.value| else 0
  {
    match reports
    case None => q
    case Some(rs) =>
      if rs == [] then q
      else
        var r0 := OnSpeedInfo(q, Some(rs[..|rs| - 1]));
        ReportStep(q, rs, r0);
        UpdateSpeedInfo(r0, rs[|rs| - 1].0, rs[|rs| - 1].1, rs[|rs| - 1].2)
  }

  /** However many reports arrive, no channel is listed twice. */
  lemma {:induction false} OnSpeedInfoKeepsChannelsUnique(q: seq<SpeedInfo>, rs: seq<SpeedReport>)
    requires UniqueBy(q, ChannelOf)
    ensures UniqueBy(OnSpeedInfo(q, Some(rs)), ChannelOf)
  {
    if rs != [] {
      OnSpeedInfoKeepsChannelsUnique(q, rs[..|rs| - 1]);
      var last := rs[|rs| - 1];
      UpdateSpeedKeepsChannelsUnique(OnSpeedInfo(q, Some(rs[..|rs| - 1])), last.0, last.1, last.2);
    }
  }
}
