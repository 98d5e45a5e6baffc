/**
 * `printDiskInfo`: for each of four fixed mount points, ask
 * `std::filesystem::space` for the capacity, free and available byte counts,
 * then call `statvfs`; when `statvfs` succeeds print the three counts in whole
 * gibibytes, otherwise print nothing for that mount point.
 *
 * Both queries are oracle inputs. `std::filesystem::space(path)` is the
 * throwing overload and runs first: when it fails, the `filesystem_error` it
 * throws is caught nowhere, so the report stops and the process ends.
 */
module DiskInfo {
  import opened Wrappers

  /** `uintmax_t`, the type of the byte counts in `space_info`. */
  type UIntMax = x: int | 0 <= x < 0x1_0000_0000_0000_0000

  /** `1024 * 1024 * 1024`, which fits in an `int` and is widened for the division. */
  const GIB: nat := 1024 * 1024 * 1024

  const MOUNT_POINTS: seq<string> := ["/", "/boot", "/var/log", "/home"]

  datatype SpaceInfo = SpaceInfo(capacity: UIntMax, free: UIntMax, available: UIntMax)

  /** What the two queries give for one path; `space == None` means `space()` throws. */
  datatype Probe = Probe(space: Option<SpaceInfo>, statvfsOk: bool)

  /** The four lines printed for one mount point (header, three figures; the separator is implied). */
  datatype MountReport = MountReport(path: string, totalGiB: UIntMax, freeGiB: UIntMax, availableGiB: UIntMax)

  /** The mount points reported, and the path whose `space()` threw, if one did. */
  datatype Report = Report(printed: seq<MountReport>, thrownAt: Option<string>)

  /** Unsigned integer division by 2^30: the whole number of GiB in `bytes`, rounded down. */
  function ToGiB(bytes: UIntMax): (g: UIntMax)
    ensures g * GIB <= bytes < (g + 1) * GIB
  {
    bytes / GIB
  }

  /** The lines for one mount point: its path, then capacity, free and available space in whole GiB, rounded down. */
  function MountReportOf(path: string, si: SpaceInfo): (m: MountReport)
    ensures m.path == path
    ensures m.totalGiB * GIB <= si.capacity < (m.totalGiB + 1) * GIB
    ensures m.freeGiB * GIB <= si.free < (m.freeGiB + 1) * GIB
    ensures m.availableGiB * GIB <= si.available < (m.availableGiB + 1) * GIB
  {
    MountReport(path, ToGiB(si.capacity), ToGiB(si.free), ToGiB(si.available))
  }

  /** The report for a list of paths, one path at a time in list order. */
  function ReportOf(paths: seq<string>, probe: string -> Probe): (r: Report)
    ensures |r.printed| <= |paths|
    ensures r.thrownAt.Some? ==> r.thrownAt.value in paths && probe(r.thrownAt.value).space.None?
  {
    if paths == [] then Report([], None)
    else
      var p := probe(paths[0]);
      if p.space.None? then Report([], Some(paths[0]))
      else
        var rest := ReportOf(paths[1..], probe);
        var head := if p.statvfsOk then [MountReportOf(paths[0], p.space.value)] else [];
        Report(head + rest.printed, rest.thrownAt)
  }

  /** `printDiskInfo`: the report over the fixed list of mount points. */
  method PrintDiskInfo(probe: string -> Probe) returns (report: Report)
    ensures report == ReportOf(MOUNT_POINTS, probe)
  {
    report := ReportMounts(MOUNT_POINTS, probe);
  }

  /** The range-for of `printDiskInfo`, one mount point per iteration, stopping where `space()` throws. */
  method ReportMounts(paths: seq<string>, probe: string -> Probe) returns (report: Report)
    ensures report == ReportOf(paths, probe)
  {
    var printed: seq<MountReport> := [];
    var thrownAt: Option<string> := None;
    var i := 0;
    while i < |paths|
      invariant 0 <= i <= |paths|
      invariant ReportOf(paths, probe) == (var r := ReportOf(paths[i..], probe); Report(printed + r.printed, r.thrownAt))
    {
      var path := paths[i];
      var p := probe(path);
      if p.space.None? {
        thrownAt := Some(path);
        break;
      }
      ReportOfStep(paths, probe, i);
      if p.statvfsOk {
        printed := printed + [MountReportOf(path, p.space.value)];
      }
      i := i + 1;
    }
    report := Report(printed, thrownAt);
  }

  /** One step of the report: the path at `i` is handled, then the rest of the list. */
  lemma ReportOfStep(paths: seq<string>, probe: string -> Probe, i: nat)
    requires i < |paths| && probe(paths[i]).space.Some?
    ensures var p := probe(paths[i]);
            var rest := ReportOf(paths[i + 1..], probe);
            ReportOf(paths[i..], probe) ==
              Report((if p.statvfsOk then [MountReportOf(paths[i], p.space.value)] else []) + rest.printed, rest.thrownAt)
  {
    assert paths[i..][1..] == paths[i + 1..];
  }

  // ---------------------------------------------------------------------------
  // Properties of the report

  predicate NoneThrows(paths: seq<string>, probe: string -> Probe) {
    forall i :: 0 <= i < |paths| ==> probe(paths[i]).space.Some?
  }

  /**
   * When no `space()` query throws, the report completes and a path is
   * reported, with its figures in whole GiB, exactly when its `statvfs`
   * succeeds: a failing mount point prints nothing.
   */
  lemma {:induction false} ReportedExactlyWhenStatvfsSucceeds(paths: seq<string>, probe: string -> Probe)
    requires NoneThrows(paths, probe)
    ensures ReportOf(paths, probe).thrownAt == None
    ensures forall m :: m in ReportOf(paths, probe).printed <==>
              exists i :: 0 <= i < |paths| && probe(paths[i]).statvfsOk &&
                          m == MountReportOf(paths[i], probe(paths[i]).space.value)
  {
    if paths != [] {
      assert NoneThrows(paths[1..], probe) by {
        forall i | 0 <= i < |paths[1..]| ensures probe(paths[1..][i]).space.Some? {
          assert paths[1..][i] == paths[i + 1];
        }
      }
      ReportedExactlyWhenStatvfsSucceeds(paths[1..], probe);
      var r := ReportOf(paths, probe);
      forall m | m in r.printed
        ensures exists i :: 0 <= i < |paths| && probe(paths[i]).statvfsOk &&
                            m == MountReportOf(paths[i], probe(paths[i]).space.value)
      {
        if m !in ReportOf(paths[1..], probe).printed {
          assert probe(paths[0]).statvfsOk && m == MountReportOf(paths[0], probe(paths[0]).space.value);
        } else {
          var j :| 0 <= j < |paths[1..]| && probe(paths[1..][j]).statvfsOk &&
                   m == MountReportOf(paths[1..][j], probe(paths[1..][j]).space.value);
          assert paths[1..][j] == paths[j + 1];
        }
      }
      forall i | 0 <= i < |paths| && probe(paths[i]).statvfsOk
        ensures MountReportOf(paths[i], probe(paths[i]).space.value) in r.printed
      {
        if i > 0 { assert paths[1..][i - 1] == paths[i]; }
      }
    }
  }

  /** When `space()` throws for a path, nothing from that path on is reported. */
  lemma {:induction false} ThrowStopsTheReport(paths: seq<string>, probe: string -> Probe, k: nat)
    requires k < |paths| && probe(paths[k]).space.None?
    requires forall i :: 0 <= i < k ==> probe(paths[i]).space.Some?
    ensures ReportOf(paths, probe).thrownAt == Some(paths[k])
    ensures ReportOf(paths, probe) == (var r := ReportOf(paths[..k], probe); Report(r.printed, Some(paths[k])))
  {
    if k > 0 {
      assert paths[1..][..k - 1] == paths[..k][1..];
      assert paths[1..][k - 1] == paths[k];
      ThrowStopsTheReport(paths[1..], probe, k - 1);
    }
  }
}
