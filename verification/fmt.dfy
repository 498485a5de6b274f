/** The metric side of the exporter (src/fmt.rs): stable integer codes for every
    parsed value, the slash-separated device labels, and the line structure of the
    Prometheus-style text. */
module Fmt {
  import opened Wrappers
  import opened RustStr
  import opened Macros
  import Zfs

  // ================================================================ value tables

  /** Codes for `Zfs.DeviceStatus`; UnknownMissing stands for "no state line". */
  datatype DeviceStatusValue =
    | UnknownMissing
    | Unrecognized
    | Online
    | Offline
    | Split
    | Degraded
    | Faulted
    | Suspended
    | Removed
    | Unavail
  {
    /** Position in declaration order. */
    function Ordinal(): nat {
      match this
      case UnknownMissing => 0
      case Unrecognized => 1
      case Online => 2
      case Offline => 3
      case Split => 4
      case Degraded => 5
      case Faulted => 6
      case Suspended => 7
      case Removed => 8
      case Unavail => 9
    }

    function Value(): u32 {
      match this
      case UnknownMissing => 0
      case Unrecognized => 1
      case Online => 10
      case Offline => 25
      case Split => 26
      case Degraded => 50
      case Faulted => 60
      case Suspended => 70
      case Removed => 80
      case Unavail => 100
    }

    function Name(): string {
      match this
      case UnknownMissing => "UnknownMissing"
      case Unrecognized => "Unrecognized"
      case Online => "Online"
      case Offline => "Offline"
      case Split => "Split"
      case Degraded => "Degraded"
      case Faulted => "Faulted"
      case Suspended => "Suspended"
      case Removed => "Removed"
      case Unavail => "Unavail"
    }
  }

  /** `ALL`, in declaration order. */
  const DEVICE_STATUS_VALUES: seq<DeviceStatusValue> := [
    DeviceStatusValue.UnknownMissing, DeviceStatusValue.Unrecognized, Online, Offline, Split,
    Degraded, Faulted, Suspended, Removed, Unavail
  ]

  function DeviceStatusTable(): (t: seq<Entry>)
    ensures |t| == |DEVICE_STATUS_VALUES|
    ensures forall i :: 0 <= i < |t| ==>
      t[i] == Entry(DEVICE_STATUS_VALUES[i].Name(), DEVICE_STATUS_VALUES[i].Value())
  {
    seq(|DEVICE_STATUS_VALUES|, i requires 0 <= i < |DEVICE_STATUS_VALUES| =>
      Entry(DEVICE_STATUS_VALUES[i].Name(), DEVICE_STATUS_VALUES[i].Value()))
  }

  /** Codes for `Zfs.PoolStatusDescription`; Normal stands for "no status line". */
  datatype PoolStatusDescriptionValue =
    | Normal
    | Unrecognized
    | FeaturesAvailable
    | SufficientReplicasForMissing
    | DataCorruption
  {
    /** Position in declaration order. */
    function Ordinal(): nat {
      match this
      case Normal => 0
      case Unrecognized => 1
      case FeaturesAvailable => 2
      case SufficientReplicasForMissing => 3
      case DataCorruption => 4
    }

    function Value(): u32 {
      match this
      case Normal => 0
      case Unrecognized => 1
      case FeaturesAvailable => 5
      case SufficientReplicasForMissing => 10
      case DataCorruption => 50
    }

    function Name(): string {
      match this
      case Normal => "Normal"
      case Unrecognized => "Unrecognized"
      case FeaturesAvailable => "FeaturesAvailable"
      case SufficientReplicasForMissing => "SufficientReplicasForMissing"
      case DataCorruption => "DataCorruption"
    }
  }

  const POOL_STATUS_VALUES: seq<PoolStatusDescriptionValue> := [
    Normal, PoolStatusDescriptionValue.Unrecognized, FeaturesAvailable,
    SufficientReplicasForMissing, DataCorruption
  ]

  function PoolStatusTable(): (t: seq<Entry>)
    ensures |t| == |POOL_STATUS_VALUES|
    ensures forall i :: 0 <= i < |t| ==>
      t[i] == Entry(POOL_STATUS_VALUES[i].Name(), POOL_STATUS_VALUES[i].Value())
  {
    seq(|POOL_STATUS_VALUES|, i requires 0 <= i < |POOL_STATUS_VALUES| =>
      Entry(POOL_STATUS_VALUES[i].Name(), POOL_STATUS_VALUES[i].Value()))
  }

  /** Codes for `Zfs.ScanStatus`; UnknownMissing stands for "no scan line". */
  datatype ScanStatusValue =
    | UnknownMissing
    | Unrecognized
    | ScrubRepaired
    | Resilvered
    | ScrubInProgress
  {
    /** Position in declaration order. */
    function Ordinal(): nat {
      match this
      case UnknownMissing => 0
      case Unrecognized => 1
      case ScrubRepaired => 2
      case Resilvered => 3
      case ScrubInProgress => 4
    }

    function Value(): u32 {
      match this
      case UnknownMissing => 0
      case Unrecognized => 1
      case ScrubRepaired => 10
      case Resilvered => 15
      case ScrubInProgress => 30
    }

    function Name(): string {
      match this
      case UnknownMissing => "UnknownMissing"
      case Unrecognized => "Unrecognized"
      case ScrubRepaired => "ScrubRepaired"
      case Resilvered => "Resilvered"
      case ScrubInProgress => "ScrubInProgress"
    }
  }

  const SCAN_STATUS_VALUES: seq<ScanStatusValue> := [
    ScanStatusValue.UnknownMissing, ScanStatusValue.Unrecognized, ScrubRepaired, Resilvered,
    ScrubInProgress
  ]

  function ScanStatusTable(): (t: seq<Entry>)
    ensures |t| == |SCAN_STATUS_VALUES|
    ensures forall i :: 0 <= i < |t| ==>
      t[i] == Entry(SCAN_STATUS_VALUES[i].Name(), SCAN_STATUS_VALUES[i].Value())
  {
    seq(|SCAN_STATUS_VALUES|, i requires 0 <= i < |SCAN_STATUS_VALUES| =>
      Entry(SCAN_STATUS_VALUES[i].Name(), SCAN_STATUS_VALUES[i].Value()))
  }

  /** Codes for `Zfs.ErrorStatus`; UnknownMissing stands for "no errors line". */
  datatype ErrorStatusValue =
    | UnknownMissing
    | Unrecognized
    | Ok
    | DataErrors
  {
    /** Position in declaration order. */
    function Ordinal(): nat {
      match this
      case UnknownMissing => 0
      case Unrecognized => 1
      case Ok => 2
      case DataErrors => 3
    }

    function Value(): u32 {
      match this
      case UnknownMissing => 0
      case Unrecognized => 1
      case Ok => 10
      case DataErrors => 50
    }

    function Name(): string {
      match this
      case UnknownMissing => "UnknownMissing"
      case Unrecognized => "Unrecognized"
      case Ok => "Ok"
      case DataErrors => "DataErrors"
    }
  }

  const ERROR_STATUS_VALUES: seq<ErrorStatusValue> := [
    ErrorStatusValue.UnknownMissing, ErrorStatusValue.Unrecognized, Ok, DataErrors
  ]

  function ErrorStatusTable(): (t: seq<Entry>)
    ensures |t| == |ERROR_STATUS_VALUES|
    ensures forall i :: 0 <= i < |t| ==>
      t[i] == Entry(ERROR_STATUS_VALUES[i].Name(), ERROR_STATUS_VALUES[i].Value())
  {
    seq(|ERROR_STATUS_VALUES|, i requires 0 <= i < |ERROR_STATUS_VALUES| =>
      Entry(ERROR_STATUS_VALUES[i].Name(), ERROR_STATUS_VALUES[i].Value()))
  }

  /** `ALL` lists every variant exactly once, at its declaration position; the
      default comes first with code 0 and the codes strictly increase. */
  lemma DeviceStatusValueTable()
    ensures forall v: DeviceStatusValue :: v.Ordinal() < |DEVICE_STATUS_VALUES| && DEVICE_STATUS_VALUES[v.Ordinal()] == v
    ensures forall i :: 0 <= i < |DEVICE_STATUS_VALUES| ==> DEVICE_STATUS_VALUES[i].Ordinal() == i
    ensures ValueTable(DeviceStatusTable())
  {
  }

  /** No two variants share a code. */
  lemma {:induction false} DeviceStatusValueInjective(a: DeviceStatusValue, b: DeviceStatusValue)
    ensures a.Value() == b.Value() ==> a == b
  {
    DeviceStatusValueTable();
    var t := DeviceStatusTable();
    if a.Ordinal() < b.Ordinal() {
      AscendingDistinct(t, a.Ordinal(), b.Ordinal());
    } else if b.Ordinal() < a.Ordinal() {
      AscendingDistinct(t, b.Ordinal(), a.Ordinal());
    }
  }

  /** `ALL` lists every variant exactly once, at its declaration position; the
      default comes first with code 0 and the codes strictly increase. */
  lemma PoolStatusValueTable()
    ensures forall v: PoolStatusDescriptionValue :: v.Ordinal() < |POOL_STATUS_VALUES| && POOL_STATUS_VALUES[v.Ordinal()] == v
    ensures forall i :: 0 <= i < |POOL_STATUS_VALUES| ==> POOL_STATUS_VALUES[i].Ordinal() == i
    ensures ValueTable(PoolStatusTable())
  {
  }

  /** No two variants share a code. */
  lemma {:induction false} PoolStatusValueInjective(a: PoolStatusDescriptionValue, b: PoolStatusDescriptionValue)
    ensures a.Value() == b.Value() ==> a == b
  {
    PoolStatusValueTable();
    var t := PoolStatusTable();
    if a.Ordinal() < b.Ordinal() {
      AscendingDistinct(t, a.Ordinal(), b.Ordinal());
    } else if b.Ordinal() < a.Ordinal() {
      AscendingDistinct(t, b.Ordinal(), a.Ordinal());
    }
  }

  /** `ALL` lists every variant exactly once, at its declaration position; the
      default comes first with code 0 and the codes strictly increase. */
  lemma ScanStatusValueTable()
    ensures forall v: ScanStatusValue :: v.Ordinal() < |SCAN_STATUS_VALUES| && SCAN_STATUS_VALUES[v.Ordinal()] == v
    ensures forall i :: 0 <= i < |SCAN_STATUS_VALUES| ==> SCAN_STATUS_VALUES[i].Ordinal() == i
    ensures ValueTable(ScanStatusTable())
  {
  }

  /** No two variants share a code. */
  lemma {:induction false} ScanStatusValueInjective(a: ScanStatusValue, b: ScanStatusValue)
    ensures a.Value() == b.Value() ==> a == b
  {
    ScanStatusValueTable();
    var t := ScanStatusTable();
    if a.Ordinal() < b.Ordinal() {
      AscendingDistinct(t, a.Ordinal(), b.Ordinal());
    } else if b.Ordinal() < a.Ordinal() {
      AscendingDistinct(t, b.Ordinal(), a.Ordinal());
    }
  }

  /** `ALL` lists every variant exactly once, at its declaration position; the
      default comes first with code 0 and the codes strictly increase. */
  lemma ErrorStatusValueTable()
    ensures forall v: ErrorStatusValue :: v.Ordinal() < |ERROR_STATUS_VALUES| && ERROR_STATUS_VALUES[v.Ordinal()] == v
    ensures forall i :: 0 <= i < |ERROR_STATUS_VALUES| ==> ERROR_STATUS_VALUES[i].Ordinal() == i
    ensures ValueTable(ErrorStatusTable())
  {
  }

  /** No two variants share a code. */
  lemma {:induction false} ErrorStatusValueInjective(a: ErrorStatusValue, b: ErrorStatusValue)
    ensures a.Value() == b.Value() ==> a == b
  {
    ErrorStatusValueTable();
    var t := ErrorStatusTable();
    if a.Ordinal() < b.Ordinal() {
      AscendingDistinct(t, a.Ordinal(), b.Ordinal());
    } else if b.Ordinal() < a.Ordinal() {
      AscendingDistinct(t, b.Ordinal(), a.Ordinal());
    }
  }

  // ================================================================ From and from_opt

  /** `From<DeviceStatus>`: the variant of the same name, never the default. */
  function DeviceStatusValueFrom(s: Zfs.DeviceStatus): (r: DeviceStatusValue)
    ensures r.Name() == s.Name()
    ensures r != DeviceStatusValue.UnknownMissing
  {
    match s
    case Unrecognized => DeviceStatusValue.Unrecognized
    case Online => Online
    case Offline => Offline
    case Split => Split
    case Degraded => Degraded
    case Faulted => Faulted
    case Suspended => Suspended
    case Removed => Removed
    case Unavail => Unavail
  }

  /** `From<PoolStatusDescription>`. The table has no DeviceRemoved variant, so that
      description has no code. */
  function PoolStatusValueFrom(s: Zfs.PoolStatusDescription): (r: PoolStatusDescriptionValue)
    requires s != Zfs.PoolStatusDescription.DeviceRemoved
    ensures r.Name() == s.Name()
    ensures r != Normal
  {
    match s
    case Unrecognized => PoolStatusDescriptionValue.Unrecognized
    case FeaturesAvailable => FeaturesAvailable
    case SufficientReplicasForMissing => SufficientReplicasForMissing
    case DataCorruption => DataCorruption
  }

  function ScanStatusValueFrom(s: Zfs.ScanStatus): (r: ScanStatusValue)
    ensures r.Name() == s.Name()
    ensures r != ScanStatusValue.UnknownMissing
  {
    match s
    case Unrecognized => ScanStatusValue.Unrecognized
    case ScrubRepaired => ScrubRepaired
    case Resilvered => Resilvered
    case ScrubInProgress => ScrubInProgress
  }

  /** `From<(ScanStatus, T)>`: the second component plays no part. */
  function ScanStatusValueFromPair<T>(p: (Zfs.ScanStatus, T)): (r: ScanStatusValue)
    ensures r.Name() == p.0.Name()
  {
    ScanStatusValueFrom(p.0)
  }

  lemma ScanStatusPairIgnoresTime<T>(s: Zfs.ScanStatus, t1: T, t2: T)
    ensures ScanStatusValueFromPair((s, t1)) == ScanStatusValueFromPair((s, t2))
  {
  }

  function ErrorStatusValueFrom(s: Zfs.ErrorStatus): (r: ErrorStatusValue)
    ensures r.Name() == s.Name()
    ensures r != ErrorStatusValue.UnknownMissing
  {
    match s
    case Unrecognized => ErrorStatusValue.Unrecognized
    case Ok => Ok
    case DataErrors => DataErrors
  }

  /** `from_opt`: 0 exactly when the value is absent, otherwise the value's code. */
  function DeviceStatusFromOpt(s: Option<Zfs.DeviceStatus>): (r: u32)
    ensures r == 0 <==> s.None?
    ensures s.Some? ==> r == DeviceStatusValueFrom(s.value).Value()
  {
    match s
    case None => DeviceStatusValue.UnknownMissing.Value()
    case Some(x) => DeviceStatusValueFrom(x).Value()
  }

  function PoolStatusFromOpt(s: Option<Zfs.PoolStatusDescription>): (r: u32)
    requires s != Some(Zfs.PoolStatusDescription.DeviceRemoved)
    ensures r == 0 <==> s.None?
    ensures s.Some? ==> r == PoolStatusValueFrom(s.value).Value()
  {
    match s
    case None => Normal.Value()
    case Some(x) => PoolStatusValueFrom(x).Value()
  }

  function ScanStatusFromOpt<T>(s: Option<(Zfs.ScanStatus, T)>): (r: u32)
    ensures r == 0 <==> s.None?
    ensures s.Some? ==> r == ScanStatusValueFrom(s.value.0).Value()
  {
    match s
    case None => ScanStatusValue.UnknownMissing.Value()
    case Some(x) => ScanStatusValueFromPair(x).Value()
  }

  function ErrorStatusFromOpt(s: Option<Zfs.ErrorStatus>): (r: u32)
    ensures r == 0 <==> s.None?
    ensures s.Some? ==> r == ErrorStatusValueFrom(s.value).Value()
  {
    match s
    case None => ErrorStatusValue.UnknownMissing.Value()
    case Some(x) => ErrorStatusValueFrom(x).Value()
  }

  // ================================================================ device labels

  function Min(a: nat, b: nat): nat {
    if a < b then a else b
  }

  /** `DeviceTreeName::update`. Depth 0 is the pool's own row and clears the path; a
      device at depth d keeps the first d - 1 names (as many as there are) and then
      appends its own name. */
  function UpdatePath(path: seq<string>, depth: nat, name: string): (r: seq<string>)
    ensures depth == 0 ==> r == []
    ensures depth > 0 ==> |r| == Min(|path|, depth - 1) + 1
    ensures depth > 0 ==> r[..|r| - 1] == path[..|r| - 1] && r[|r| - 1] == name
  {
    if depth == 0 then [] else path[..Min(|path|, depth - 1)] + [name]
  }

  /** The path's `Debug` rendering: the names joined by "/" inside double quotes,
      the names themselves written as they are. */
  function TreeLabel(path: seq<string>): (r: string)
    ensures path == [] ==> r == "\"\""
    ensures |r| >= 2 && r[0] == '"' && r[|r| - 1] == '"'
  {
    "\"" + Join(path, "/") + "\""
  }

  /** The pieces of `s` between the occurrences of `c`. */
  function SplitAll(s: string, c: char): (r: seq<string>)
    ensures |r| > 0
    decreases |s|
  {
    match SplitOnceChar(s, c)
    case None => [s]
    case Some((a, b)) => [a] + SplitAll(b, c)
  }

  /** Splitting a joined list at the separator gives the list back when no element
      holds the separator. */
  lemma {:induction false} SplitAllJoin(parts: seq<string>, c: char)
    requires |parts| > 0
    requires forall i :: 0 <= i < |parts| ==> c !in parts[i]
    ensures SplitAll(Join(parts, [c]), c) == parts
    decreases |parts|
  {
    if |parts| > 1 {
      var rest := Join(parts[1..], [c]);
      assert Join(parts, [c]) == parts[0] + [c] + rest;
      SplitOnceCharAt(parts[0], c, rest);
      SplitAllJoin(parts[1..], c);
    }
  }

  /** A non-empty path whose names hold no "/" can be read back from its label. */
  lemma TreeLabelReadBack(path: seq<string>)
    requires |path| > 0
    requires forall i :: 0 <= i < |path| ==> '/' !in path[i]
    ensures var r := TreeLabel(path); SplitAll(r[1..|r| - 1], '/') == path
  {
    var r := TreeLabel(path);
    assert r[1..|r| - 1] == Join(path, "/");
    SplitAllJoin(path, '/');
  }

  /** The path after row `k` of a pool's table, starting from `start`. */
  function PathAt(start: seq<string>, devices: seq<Zfs.DeviceMetrics>, k: nat): seq<string>
    requires k < |devices|
  {
    UpdatePath(if k == 0 then start else PathAt(start, devices, k - 1), devices[k].depth, devices[k].name)
  }

  /** A tree as `zpool status` prints it: each row at most one level deeper than the
      row before it, and the first row at depth 0 or 1. */
  predicate Nested(devices: seq<Zfs.DeviceMetrics>) {
    forall k {:trigger DepthBefore(devices, k)} :: 0 <= k < |devices| ==>
      devices[k].depth <= DepthBefore(devices, k) + 1
  }

  /** The depth of the row before row `k`, 0 before the first row. */
  function DepthBefore(devices: seq<Zfs.DeviceMetrics>, k: nat): nat
    requires k < |devices|
  {
    if k == 0 then 0 else devices[k - 1].depth
  }

  /** The last row, up to row `k`, at the given depth. */
  function LatestAtDepth(devices: seq<Zfs.DeviceMetrics>, k: nat, depth: nat): (r: Option<nat>)
    requires k < |devices|
    ensures r.Some? ==> r.value <= k && devices[r.value].depth == depth
  {
    if devices[k].depth == depth then Some(k)
    else if k == 0 then None
    else LatestAtDepth(devices, k - 1, depth)
  }

  /** In a nested table the path after a row has one name per level of depth. */
  lemma {:induction false} PathLength(devices: seq<Zfs.DeviceMetrics>, k: nat)
    requires k < |devices| && Nested(devices)
    ensures |PathAt([], devices, k)| == devices[k].depth
  {
    var d := devices[k].depth;
    assert d <= DepthBefore(devices, k) + 1;
    if k > 0 {
      PathLength(devices, k - 1);
    }
  }

  /** Below the row's own level, a row's path keeps the previous row's names, and the
      last row at each of those depths is unchanged. */
  lemma PathEntryInherited(devices: seq<Zfs.DeviceMetrics>, k: nat, j: nat)
    requires 0 < k < |devices| && Nested(devices) && j + 1 < devices[k].depth
    ensures j < devices[k - 1].depth
    ensures j < |PathAt([], devices, k)| && j < |PathAt([], devices, k - 1)|
    ensures PathAt([], devices, k)[j] == PathAt([], devices, k - 1)[j]
    ensures LatestAtDepth(devices, k, j + 1) == LatestAtDepth(devices, k - 1, j + 1)
  {
    var d := devices[k].depth;
    assert d <= DepthBefore(devices, k) + 1;
    PathLength(devices, k);
    PathLength(devices, k - 1);
    var path := PathAt([], devices, k);
    var prev := PathAt([], devices, k - 1);
    assert path == UpdatePath(prev, d, devices[k].name);
    assert path[..|path| - 1] == prev[..|path| - 1];
    assert path[j] == path[..|path| - 1][j];
  }

  /** The name at level j + 1 of a row's path is that of the last row at depth
      j + 1 so far: its nearest ancestor at that level. */
  lemma {:induction false} PathEntry(devices: seq<Zfs.DeviceMetrics>, k: nat, j: nat)
    requires k < |devices| && Nested(devices) && j < devices[k].depth
    ensures |PathAt([], devices, k)| == devices[k].depth
    ensures LatestAtDepth(devices, k, j + 1).Some?
    ensures PathAt([], devices, k)[j] == devices[LatestAtDepth(devices, k, j + 1).value].name
  {
    PathLength(devices, k);
    if j + 1 == devices[k].depth {
      assert LatestAtDepth(devices, k, j + 1) == Some(k);
      var path := PathAt([], devices, k);
      assert path[|path| - 1] == devices[k].name;
    } else {
      assert k > 0 by {
        assert devices[k].depth <= DepthBefore(devices, k) + 1;
      }
      PathEntryInherited(devices, k, j);
      PathEntry(devices, k - 1, j);
    }
  }

  /** Level j + 1 of the path after row `k` names that row's nearest ancestor at
      depth j + 1. */
  predicate AncestorAt(devices: seq<Zfs.DeviceMetrics>, k: nat, j: nat)
    requires k < |devices|
  {
    var latest := LatestAtDepth(devices, k, j + 1);
    && j < |PathAt([], devices, k)|
    && latest.Some?
    && PathAt([], devices, k)[j] == devices[latest.value].name
  }

  /** In a nested table the path after a row is the chain of its ancestors. */
  lemma PathIsAncestors(devices: seq<Zfs.DeviceMetrics>, k: nat)
    requires k < |devices| && Nested(devices)
    ensures |PathAt([], devices, k)| == devices[k].depth
    ensures forall j: nat :: j < devices[k].depth ==> AncestorAt(devices, k, j)
  {
    PathLength(devices, k);
    forall j: nat | j < devices[k].depth
      ensures AncestorAt(devices, k, j)
    {
      PathEntry(devices, k, j);
    }
  }

  /** Reports that the path carried from row to row by the formatter is the path
      `PathAt` recomputes from the first row: continuing from row 0's path over the
      remaining rows gives the same paths. */
  lemma {:induction false} PathAtShift(start: seq<string>, devices: seq<Zfs.DeviceMetrics>, k: nat)
    requires 0 < k < |devices|
    ensures PathAt(start, devices, k) == PathAt(PathAt(start, devices, 0), devices[1..], k - 1)
  {
    if k > 1 {
      PathAtShift(start, devices, k - 1);
    }
  }

  // ================================================================ debug strings

  /** How `Debug` writes one character of a string: the escapes Rust uses for the
      null character, tab, carriage return, line feed, double quote and backslash;
      every other character as it is. */
  function EscapeChar(c: char): (r: string)
    ensures |r| >= 1
  {
    match c
    case '\0' => "\\0"
    case '\t' => "\\t"
    case '\r' => "\\r"
    case '\n' => "\\n"
    case '"' => "\\\""
    case '\\' => "\\\\"
    case _ => [c]
  }

  function Escape(s: string): (r: string)
    decreases |s|
  {
    if s == [] then [] else EscapeChar(s[0]) + Escape(s[1..])
  }

  /** A string's `Debug` rendering: escaped and inside double quotes. */
  function DebugStr(s: string): (r: string)
    ensures |r| >= 2 && r[0] == '"' && r[|r| - 1] == '"'
  {
    "\"" + Escape(s) + "\""
  }

  /** Reads escapes back, the inverse of `Escape`. */
  function Unescape(s: string): string
    decreases |s|
  {
    if |s| >= 2 && s[0] == '\\' then
      var c := match s[1]
        case '0' => '\0'
        case 't' => '\t'
        case 'r' => '\r'
        case 'n' => '\n'
        case _ => s[1];
      [c] + Unescape(s[2..])
    else if s == [] then []
    else [s[0]] + Unescape(s[1..])
  }

  /** Escaping loses nothing: the original string can always be read back. */
  lemma {:induction false} EscapeRoundTrip(s: string)
    ensures Unescape(Escape(s)) == s
    decreases |s|
  {
    if s != [] {
      var rest := Escape(s[1..]);
      var e := EscapeChar(s[0]);
      assert Escape(s) == e + rest;
      if |e| == 1 {
        assert (e + rest)[1..] == rest;
      } else {
        assert (e + rest)[2..] == rest;
      }
      EscapeRoundTrip(s[1..]);
    }
  }

  /** An escaped string never holds a line feed, so a label value cannot break the
      line-by-line output. */
  lemma {:induction false} EscapeOneLine(s: string)
    ensures '\n' !in Escape(s)
    decreases |s|
  {
    if s != [] {
      EscapeOneLine(s[1..]);
      assert Escape(s) == EscapeChar(s[0]) + Escape(s[1..]);
    }
  }

  // ================================================================ output lines

  /** The prefix of every metric name. */
  const PREFIX: string := "zpool_status_export"

  /** One `key=value` pair inside a sample's braces; the value is already quoted. */
  datatype Label = Label(key: string, value: string)

  /** One line of the output: a comment, or a sample of the metric `PREFIX_metric`. */
  datatype Line =
    | Comment(text: string)
    | Sample(metric: string, labels: seq<Label>, value: string)

  function LabelText(l: Label): string {
    l.key + "=" + l.value
  }

  /** The braces of a sample: its labels separated by ",", nothing when there are none. */
  function LabelsText(labels: seq<Label>): string {
    if labels == [] then []
    else "{" + Join(seq(|labels|, i requires 0 <= i < |labels| => LabelText(labels[i])), ",") + "}"
  }

  function LineText(line: Line): string {
    match line
    case Comment(text) => "# " + text
    case Sample(metric, labels, value) => PREFIX + "_" + metric + LabelsText(labels) + "=" + value
  }

  /** The first character tells the two kinds of line apart, as a Prometheus reader
      does: comments start with '#', samples with the metric prefix. */
  lemma LineKind(line: Line)
    ensures |LineText(line)| > 0
    ensures LineText(line)[0] == '#' <==> line.Comment?
  {
    match line
    case Comment(text) =>
      assert LineText(line) == "# " + text;
    case Sample(metric, labels, value) =>
      assert LineText(line)[0] == PREFIX[0];
  }

  /** The output text: every line followed by a line feed. */
  function Render(lines: seq<Line>): string {
    Unlines(seq(|lines|, i requires 0 <= i < |lines| => LineText(lines[i])))
  }

  /** Splitting the output into lines gives back each line's text, as long as no
      line's text holds a line feed or ends in a carriage return. */
  lemma RenderLines(lines: seq<Line>)
    requires forall i :: 0 <= i < |lines| ==>
      '\n' !in LineText(lines[i]) && !EndsWithCr(LineText(lines[i]))
    ensures Lines(Render(lines)) == seq(|lines|, i requires 0 <= i < |lines| => LineText(lines[i]))
  {
    LinesUnlines(seq(|lines|, i requires 0 <= i < |lines| => LineText(lines[i])));
  }

  /** Every line is a sample of the given metric. */
  predicate OfMetric(lines: seq<Line>, metric: string) {
    forall i :: 0 <= i < |lines| ==> lines[i].Sample? && lines[i].metric == metric
  }

  // ================================================================ device sections

  /** The per-device sections, in output order. */
  datatype DeviceSection = State | ErrorsRead | ErrorsWrite | ErrorsChecksum {

    /** The value table a header lists, empty for the counters. */
    function Table(): seq<Entry> {
      match this
      case State => DeviceStatusTable()
      case _ => []
    }

    function Header(): string {
      match this
      case State => "Device state: " + Summarize(Table())
      case ErrorsRead => "Read error count"
      case ErrorsWrite => "Write error count"
      case ErrorsChecksum => "Checksum error count"
    }

    function Metric(): string {
      match this
      case State => "dev_state"
      case ErrorsRead => "dev_errors_read"
      case ErrorsWrite => "dev_errors_write"
      case ErrorsChecksum => "dev_errors_checksum"
    }

    /** The value the section reports for one device. */
    function Value(d: Zfs.DeviceMetrics): u32 {
      match this
      case State => DeviceStatusValueFrom(d.state).Value()
      case ErrorsRead => d.errorsRead
      case ErrorsWrite => d.errorsWrite
      case ErrorsChecksum => d.errorsChecksum
    }
  }

  const DEVICE_SECTIONS: seq<DeviceSection> := [State, ErrorsRead, ErrorsWrite, ErrorsChecksum]

  /** One device's sample: labelled with the pool's name and the device's path. */
  function DeviceSample(section: DeviceSection, poolName: string, path: seq<string>, d: Zfs.DeviceMetrics): Line {
    Sample(section.Metric(), [Label("pool", DebugStr(poolName)), Label("dev", TreeLabel(path))],
      Decimal(section.Value(d)))
  }

  /** The loop over one pool's rows, carrying the device path from row to row. */
  function DeviceSamplesFrom(section: DeviceSection, poolName: string, path: seq<string>,
                             devices: seq<Zfs.DeviceMetrics>): (r: seq<Line>)
    ensures |r| == |devices|
    decreases |devices|
  {
    if devices == [] then []
    else
      var next := UpdatePath(path, devices[0].depth, devices[0].name);
      [DeviceSample(section, poolName, next, devices[0])]
        + DeviceSamplesFrom(section, poolName, next, devices[1..])
  }

  /** Row `k`'s sample carries the path `PathAt` gives for row `k`. */
  lemma {:induction false} DeviceSamplesFromAt(section: DeviceSection, poolName: string, start: seq<string>,
                                               devices: seq<Zfs.DeviceMetrics>, k: nat)
    requires k < |devices|
    ensures DeviceSamplesFrom(section, poolName, start, devices)[k]
         == DeviceSample(section, poolName, PathAt(start, devices, k), devices[k])
    decreases |devices|
  {
    var next := UpdatePath(start, devices[0].depth, devices[0].name);
    var rest := DeviceSamplesFrom(section, poolName, next, devices[1..]);
    var all := DeviceSamplesFrom(section, poolName, start, devices);
    assert all == [DeviceSample(section, poolName, next, devices[0])] + rest;
    assert PathAt(start, devices, 0) == next;
    if k > 0 {
      assert all[k] == rest[k - 1];
      DeviceSamplesFromAt(section, poolName, next, devices[1..], k - 1);
      PathAtShift(start, devices, k);
      assert devices[1..][k - 1] == devices[k];
    }
  }

  /** Output blocks one after the other. */
  function Flatten<X>(blocks: seq<seq<X>>): (r: seq<X>)
    ensures |r| == TotalLength(blocks)
    decreases |blocks|
  {
    if blocks == [] then [] else blocks[0] + Flatten(blocks[1..])
  }

  /** The number of items over all blocks. */
  function TotalLength<X>(blocks: seq<seq<X>>): nat
    decreases |blocks|
  {
    if blocks == [] then 0 else |blocks[0]| + TotalLength(blocks[1..])
  }

  /** Blocks of the same lengths have the same total length. */
  lemma {:induction false} TotalLengthSame<X, Y>(a: seq<seq<X>>, b: seq<seq<Y>>)
    requires |a| == |b| && forall i :: 0 <= i < |a| ==> |a[i]| == |b[i]|
    ensures TotalLength(a) == TotalLength(b)
    decreases |a|
  {
    if a != [] {
      assert forall i :: 0 <= i < |a| - 1 ==> a[1..][i] == a[i + 1] && b[1..][i] == b[i + 1];
      TotalLengthSame(a[1..], b[1..]);
    }
  }

  /** Item `k` of block `p` comes right after the items of the blocks before it. */
  lemma {:induction false} FlattenAt<X>(blocks: seq<seq<X>>, p: nat, k: nat)
    requires p < |blocks| && k < |blocks[p]|
    ensures TotalLength(blocks[..p]) + k < TotalLength(blocks)
    ensures Flatten(blocks)[TotalLength(blocks[..p]) + k] == blocks[p][k]
    decreases p
  {
    assert Flatten(blocks) == blocks[0] + Flatten(blocks[1..]);
    if p == 0 {
      assert blocks[..0] == [];
    } else {
      assert blocks[..p][1..] == blocks[1..][..p - 1];
      assert TotalLength(blocks[..p]) == |blocks[0]| + TotalLength(blocks[1..][..p - 1]);
      FlattenAt(blocks[1..], p - 1, k);
      assert blocks[1..][p - 1] == blocks[p];
    }
  }

  /** Blocks that are all samples of one metric flatten to samples of that metric. */
  lemma {:induction false} FlattenOfMetric(blocks: seq<seq<Line>>, metric: string)
    requires forall p :: 0 <= p < |blocks| ==> OfMetric(blocks[p], metric)
    ensures OfMetric(Flatten(blocks), metric)
    decreases |blocks|
  {
    if blocks != [] {
      assert forall p :: 0 <= p < |blocks| - 1 ==> blocks[1..][p] == blocks[p + 1];
      FlattenOfMetric(blocks[1..], metric);
      var head: seq<Line>, rest: seq<Line> := blocks[0], Flatten(blocks[1..]);
      assert Flatten(blocks) == head + rest;
      forall i | 0 <= i < |head + rest|
        ensures (head + rest)[i].Sample? && (head + rest)[i].metric == metric
      {
        if i >= |head| {
          assert (head + rest)[i] == rest[i - |head|];
        }
      }
    }
  }

  /** Each pool's device rows. */
  function DeviceRows<T>(pools: seq<Zfs.PoolMetrics<T>>): seq<seq<Zfs.DeviceMetrics>> {
    seq(|pools|, i requires 0 <= i < |pools| => pools[i].devices)
  }

  /** The number of device rows over all pools. */
  function DeviceCount<T>(pools: seq<Zfs.PoolMetrics<T>>): nat {
    TotalLength(DeviceRows(pools))
  }

  /** Each pool's samples for one section, the path starting afresh for each pool. */
  function PoolDeviceSamples<T>(section: DeviceSection, pools: seq<Zfs.PoolMetrics<T>>): seq<seq<Line>> {
    seq(|pools|, i requires 0 <= i < |pools| => DeviceSamplesFrom(section, pools[i].name, [], pools[i].devices))
  }

  /** One section's samples for every pool, pool after pool. */
  function DeviceSamples<T>(section: DeviceSection, pools: seq<Zfs.PoolMetrics<T>>): (r: seq<Line>)
    ensures |r| == DeviceCount(pools)
  {
    TotalLengthSame(PoolDeviceSamples(section, pools), DeviceRows(pools));
    Flatten(PoolDeviceSamples(section, pools))
  }

  /** Row `k` of pool `p` sits after the rows of the pools before it, and is the
      sample the pool's own loop gives for that row. */
  lemma DeviceSamplesAt<T>(section: DeviceSection, pools: seq<Zfs.PoolMetrics<T>>, p: nat, k: nat)
    requires p < |pools| && k < |pools[p].devices|
    ensures DeviceCount(pools[..p]) + k < DeviceCount(pools)
    ensures |PoolDeviceSamples(section, pools)[p]| == |pools[p].devices|
    ensures DeviceSamples(section, pools)[DeviceCount(pools[..p]) + k] == PoolDeviceSamples(section, pools)[p][k]
  {
    var blocks := PoolDeviceSamples(section, pools);
    var n := DeviceCount(pools[..p]);
    assert |blocks[p]| == |pools[p].devices|;
    assert n == TotalLength(blocks[..p]) by {
      DeviceCountBefore(section, pools, p);
    }
    assert n + k < TotalLength(blocks) && Flatten(blocks)[n + k] == blocks[p][k] by {
      FlattenAt(blocks, p, k);
    }
    assert DeviceSamples(section, pools) == Flatten(blocks);
  }

  /** The rows of the first `p` pools are as many as their samples. */
  lemma DeviceCountBefore<T>(section: DeviceSection, pools: seq<Zfs.PoolMetrics<T>>, p: nat)
    requires p <= |pools|
    ensures DeviceCount(pools[..p]) == TotalLength(PoolDeviceSamples(section, pools)[..p])
  {
    TotalLengthSame(PoolDeviceSamples(section, pools)[..p], DeviceRows(pools[..p]));
  }

  lemma FlattenFour<X>(blocks: seq<seq<X>>)
    requires |blocks| == 4
    ensures Flatten(blocks) == blocks[0] + blocks[1] + blocks[2] + blocks[3]
  {
    var b1, b2, b3 := blocks[1..], blocks[2..], blocks[3..];
    assert b1[1..] == b2 && b2[1..] == b3 && b3[1..] == [];
    assert Flatten(b3) == blocks[3] + [];
    assert Flatten(b2) == blocks[2] + Flatten(b3);
    assert Flatten(b1) == blocks[1] + Flatten(b2);
    assert Flatten(blocks) == blocks[0] + Flatten(b1);
  }

  /** One device section: its comment, then its samples. */
  function DeviceBlock<T>(section: DeviceSection, pools: seq<Zfs.PoolMetrics<T>>): (r: seq<Line>)
    ensures |r| == 1 + DeviceCount(pools)
  {
    [Comment(section.Header())] + DeviceSamples(section, pools)
  }

  /** `fmt_device_sections`: the four device sections in order. */
  function DeviceSectionLines<T>(pools: seq<Zfs.PoolMetrics<T>>): seq<Line> {
    Flatten(seq(4, q requires 0 <= q < 4 => DeviceBlock(DEVICE_SECTIONS[q], pools)))
  }

  /** The device sections are the four blocks in the order of `DEVICE_SECTIONS`:
      state, read errors, write errors, checksum errors. */
  lemma DeviceSectionOrder<T>(pools: seq<Zfs.PoolMetrics<T>>)
    ensures DeviceSectionLines(pools)
         == DeviceBlock(State, pools) + DeviceBlock(ErrorsRead, pools)
          + DeviceBlock(ErrorsWrite, pools) + DeviceBlock(ErrorsChecksum, pools)
    ensures |DeviceSectionLines(pools)| == 4 * (1 + DeviceCount(pools))
  {
    var blocks := seq(4, j requires 0 <= j < 4 => DeviceBlock(DEVICE_SECTIONS[j], pools));
    FlattenFour(blocks);
  }

  /** Row `k` of pool `p` follows the earlier pools' rows and carries its own path. */
  lemma DeviceRowAt<T>(section: DeviceSection, pools: seq<Zfs.PoolMetrics<T>>, p: nat, k: nat)
    requires p < |pools| && k < |pools[p].devices|
    ensures DeviceCount(pools[..p]) + k < DeviceCount(pools)
    ensures DeviceSamples(section, pools)[DeviceCount(pools[..p]) + k]
         == DeviceSample(section, pools[p].name, PathAt([], pools[p].devices, k), pools[p].devices[k])
  {
    DeviceSamplesAt(section, pools, p, k);
    PoolDeviceSampleAt(section, pools, p, k);
  }

  /** Pool `p`'s own loop gives row `k` the sample with that row's path. */
  lemma PoolDeviceSampleAt<T>(section: DeviceSection, pools: seq<Zfs.PoolMetrics<T>>, p: nat, k: nat)
    requires p < |pools| && k < |pools[p].devices|
    requires |PoolDeviceSamples(section, pools)[p]| == |pools[p].devices|
    ensures PoolDeviceSamples(section, pools)[p][k]
         == DeviceSample(section, pools[p].name, PathAt([], pools[p].devices, k), pools[p].devices[k])
  {
    assert PoolDeviceSamples(section, pools)[p] == DeviceSamplesFrom(section, pools[p].name, [], pools[p].devices);
    DeviceSamplesFromAt(section, pools[p].name, [], pools[p].devices, k);
  }

  /** Every line of a device block after its comment is a sample of the block's metric. */
  lemma {:induction false} DeviceSamplesFromMetric(section: DeviceSection, poolName: string, path: seq<string>,
                                                   devices: seq<Zfs.DeviceMetrics>)
    ensures OfMetric(DeviceSamplesFrom(section, poolName, path, devices), section.Metric())
    decreases |devices|
  {
    if devices != [] {
      var next := UpdatePath(path, devices[0].depth, devices[0].name);
      DeviceSamplesFromMetric(section, poolName, next, devices[1..]);
    }
  }

  lemma DeviceSamplesMetric<T>(section: DeviceSection, pools: seq<Zfs.PoolMetrics<T>>)
    ensures OfMetric(DeviceSamples(section, pools), section.Metric())
  {
    var blocks := PoolDeviceSamples(section, pools);
    forall p | 0 <= p < |blocks|
      ensures OfMetric(blocks[p], section.Metric())
    {
      DeviceSamplesFromMetric(section, pools[p].name, [], pools[p].devices);
    }
    FlattenOfMetric(blocks, section.Metric());
  }

  // ================================================================ pool sections

  /** The per-pool sections, in output order. */
  datatype PoolSection = PoolState | PoolStatusDescription | ScanState | ScanAge | ErrorState {

    /** The value table a header lists, empty for the scan age. */
    function Table(): seq<Entry> {
      match this
      case PoolState => DeviceStatusTable()
      case PoolStatusDescription => PoolStatusTable()
      case ScanState => ScanStatusTable()
      case ScanAge => []
      case ErrorState => ErrorStatusTable()
    }

    function Header(): string {
      match this
      case PoolState => "Pool state: " + Summarize(Table())
      case PoolStatusDescription => "Pool status description: " + Summarize(Table())
      case ScanState => "Scan status: " + Summarize(Table())
      case ScanAge => "Scan age in hours"
      case ErrorState => "Error status: " + Summarize(Table())
    }

    function Metric(): string {
      match this
      case PoolState => "pool_state"
      case PoolStatusDescription => "pool_status_desc"
      case ScanState => "scan_state"
      case ScanAge => "scan_age"
      case ErrorState => "error_state"
    }
  }

  const POOL_SECTIONS: seq<PoolSection> := [PoolState, PoolStatusDescription, ScanState, ScanAge, ErrorState]

  /** A pool whose description has a code: every description but DeviceRemoved. */
  predicate Describable<T>(pool: Zfs.PoolMetrics<T>) {
    pool.poolStatus != Some(Zfs.PoolStatusDescription.DeviceRemoved)
  }

  predicate AllDescribable<T>(pools: seq<Zfs.PoolMetrics<T>>) {
    forall i :: 0 <= i < |pools| ==> Describable(pools[i])
  }

  /** Whether the pool's report gave the header the section is about. */
  predicate Reported<T>(section: PoolSection, pool: Zfs.PoolMetrics<T>) {
    match section
    case PoolState => pool.state.Some?
    case PoolStatusDescription => pool.poolStatus.Some?
    case ScanState | ScanAge => pool.scanStatus.Some?
    case ErrorState => pool.error.Some?
  }

  /** The code a coded section reports for a pool: 0 exactly when the pool's report
      lacked the header, the variant's code otherwise. */
  function PoolCode<T>(section: PoolSection, pool: Zfs.PoolMetrics<T>): (r: u32)
    requires section != ScanAge && Describable(pool)
    ensures r == 0 <==> !Reported(section, pool)
  {
    match section
    case PoolState => DeviceStatusFromOpt(pool.state)
    case PoolStatusDescription => PoolStatusFromOpt(pool.poolStatus)
    case ScanState => ScanStatusFromOpt(pool.scanStatus)
    case ErrorState => ErrorStatusFromOpt(pool.error)
  }

  /** The value text of a pool's sample. Codes are whole numbers and print without a
      fraction. The scan age is the time since the scan in hours, which `age` renders
      from the scan's timestamp; a pool without a scan reports 0. */
  function PoolValue<T>(section: PoolSection, pool: Zfs.PoolMetrics<T>, age: T -> string): string
    requires Describable(pool)
  {
    if section == ScanAge then
      match pool.scanStatus
      case None => "0"
      case Some((_, t)) => age(t)
    else Decimal(PoolCode(section, pool))
  }

  /** One pool's sample, labelled with the pool's name as `Debug` quotes it. */
  function PoolSample<T>(section: PoolSection, pool: Zfs.PoolMetrics<T>, age: T -> string): Line
    requires Describable(pool)
  {
    Sample(section.Metric(), [Label("pool", DebugStr(pool.name))], PoolValue(section, pool, age))
  }

  /** One pool section: its comment, then one sample per pool in the pools' order. */
  function PoolBlock<T>(section: PoolSection, pools: seq<Zfs.PoolMetrics<T>>, age: T -> string): (r: seq<Line>)
    requires AllDescribable(pools)
    ensures |r| == 1 + |pools|
    ensures r[0] == Comment(section.Header())
    ensures forall i :: 1 <= i < |r| ==> r[i] == PoolSample(section, pools[i - 1], age)
  {
    [Comment(section.Header())] + seq(|pools|, i requires 0 <= i < |pools| => PoolSample(section, pools[i], age))
  }

  /** `fmt_pool_sections`: the five pool sections in order. */
  function PoolSectionLines<T>(pools: seq<Zfs.PoolMetrics<T>>, age: T -> string): seq<Line>
    requires AllDescribable(pools)
  {
    Flatten(seq(5, q requires 0 <= q < 5 => PoolBlock(POOL_SECTIONS[q], pools, age)))
  }

  lemma FlattenFive<X>(blocks: seq<seq<X>>)
    requires |blocks| == 5
    ensures Flatten(blocks) == blocks[0] + blocks[1] + blocks[2] + blocks[3] + blocks[4]
  {
    FlattenFour(blocks[1..]);
    assert blocks[1..][0] == blocks[1] && blocks[1..][3] == blocks[4];
    assert Flatten(blocks) == blocks[0] + Flatten(blocks[1..]);
  }

  /** The pool sections are the five blocks in the order of `POOL_SECTIONS`. */
  lemma PoolSectionOrder<T>(pools: seq<Zfs.PoolMetrics<T>>, age: T -> string)
    requires AllDescribable(pools)
    ensures PoolSectionLines(pools, age)
         == PoolBlock(PoolState, pools, age) + PoolBlock(PoolStatusDescription, pools, age)
          + PoolBlock(ScanState, pools, age) + PoolBlock(ScanAge, pools, age)
          + PoolBlock(ErrorState, pools, age)
    ensures |PoolSectionLines(pools, age)| == 5 * (1 + |pools|)
  {
    var blocks := seq(5, q requires 0 <= q < 5 => PoolBlock(POOL_SECTIONS[q], pools, age));
    FlattenFive(blocks);
  }

  /** A pool's sample can be read back: the label, unquoted and unescaped, is the
      pool's name; a coded section's value parses to the code, which is 0 exactly when
      the header was missing; a pool without a scan has age 0. */
  lemma PoolSampleReadBack<T>(section: PoolSection, pool: Zfs.PoolMetrics<T>, age: T -> string)
    requires Describable(pool)
    ensures var s := PoolSample(section, pool, age);
      && |s.labels| == 1 && s.labels[0].key == "pool"
      && var v := s.labels[0].value;
         |v| >= 2 && Unescape(v[1..|v| - 1]) == pool.name
    ensures section != ScanAge ==>
      && ParseU32(PoolSample(section, pool, age).value) == Some(PoolCode(section, pool))
      && (PoolCode(section, pool) == 0 <==> !Reported(section, pool))
    ensures section == ScanAge && !Reported(section, pool) ==> PoolSample(section, pool, age).value == "0"
  {
    var v := DebugStr(pool.name);
    assert v[1..|v| - 1] == Escape(pool.name);
    EscapeRoundTrip(pool.name);
    if section != ScanAge {
      ParseU32Decimal(PoolCode(section, pool));
    }
  }

  /** A device's sample can be read back: the pool label gives the pool's name, the
      device label (for a device below the pool, whose path names hold no "/") gives
      the path, and the value parses to the section's number for the device. */
  lemma DeviceSampleReadBack(section: DeviceSection, poolName: string, path: seq<string>, d: Zfs.DeviceMetrics)
    ensures var s := DeviceSample(section, poolName, path, d);
      && |s.labels| == 2 && s.labels[0].key == "pool" && s.labels[1].key == "dev"
      && var v := s.labels[0].value;
         |v| >= 2 && Unescape(v[1..|v| - 1]) == poolName
    ensures ParseU32(DeviceSample(section, poolName, path, d).value) == Some(section.Value(d))
    ensures |path| > 0 && (forall i :: 0 <= i < |path| ==> '/' !in path[i]) ==>
      var v := DeviceSample(section, poolName, path, d).labels[1].value;
      SplitAll(v[1..|v| - 1], '/') == path
  {
    var v := DebugStr(poolName);
    assert v[1..|v| - 1] == Escape(poolName);
    EscapeRoundTrip(poolName);
    ParseU32Decimal(section.Value(d));
    if |path| > 0 && (forall i :: 0 <= i < |path| ==> '/' !in path[i]) {
      TreeLabelReadBack(path);
    }
  }

  // ================================================================ the whole output

  const NO_POOLS: string := "no pools reported"
  const LOOKUP_COMMENT: string := "total duration of the lookup in microseconds"
  const LOOKUP_METRIC: string := "lookup"

  /** The closing pair of lines reporting how long the lookup took, present only when
      the lookup was timed. */
  function LookupLines(lookupMicros: Option<nat>): (r: seq<Line>)
    ensures lookupMicros.None? <==> r == []
  {
    match lookupMicros
    case None => []
    case Some(m) => [Comment(LOOKUP_COMMENT), Sample(LOOKUP_METRIC, [], Decimal(m))]
  }

  /** The `Display` of the formatter: the pool sections then the device sections, or a
      single comment when no pool was reported; then the lookup's duration. The clock
      is not modelled: `lookupMicros` is the elapsed time when the lookup was timed,
      and `age` renders the hours since a scan's timestamp. */
  function Report<T>(pools: seq<Zfs.PoolMetrics<T>>, age: T -> string, lookupMicros: Option<nat>): seq<Line>
    requires AllDescribable(pools)
  {
    (if pools == [] then [Comment(NO_POOLS)]
     else PoolSectionLines(pools, age) + DeviceSectionLines(pools))
    + LookupLines(lookupMicros)
  }

  /** `format_metrics`: the report as text, one line feed after every line. */
  function FormatMetrics<T>(pools: seq<Zfs.PoolMetrics<T>>, age: T -> string, lookupMicros: Option<nat>): (r: string)
    requires AllDescribable(pools)
    ensures |r| > 0 && r[|r| - 1] == '\n'
    ensures StartsWith(r, "# " + NO_POOLS + "\n") <==> pools == []
  {
    var lines := Report(pools, age, lookupMicros);
    ReportOpening(pools, age, lookupMicros);
    RenderOpens(lines);
    PoolStateHeaderInitial();
    assert pools != [] ==> !StartsWith(Render(lines), "# " + NO_POOLS + "\n") by {
      if pools != [] {
        CommentsDiffer(Render(lines), PoolState.Header(), NO_POOLS);
      }
    }
    Render(lines)
  }

  /** The text opens with the first line and its line feed, and ends with a line feed. */
  lemma RenderOpens(lines: seq<Line>)
    requires |lines| > 0
    ensures StartsWith(Render(lines), LineText(lines[0]) + "\n")
    ensures |Render(lines)| > 0 && Render(lines)[|Render(lines)| - 1] == '\n'
  {
    var texts := seq(|lines|, i requires 0 <= i < |lines| => LineText(lines[i]));
    var first := texts[0] + "\n";
    assert Render(lines) == first + Unlines(texts[1..]);
    assert Render(lines)[..|first|] == first;
  }

  /** Two comments whose texts differ in their first character never open the same text. */
  lemma CommentsDiffer(r: string, a: string, b: string)
    requires StartsWith(r, "# " + a + "\n") && |a| > 0 && |b| > 0 && a[0] != b[0]
    ensures !StartsWith(r, "# " + b + "\n")
  {
    assert r[2] == ("# " + a + "\n")[2] == a[0];
    assert ("# " + b + "\n")[2] == b[0];
  }

  lemma PoolStateHeaderInitial()
    ensures |PoolState.Header()| > 0 && PoolState.Header()[0] == 'P' != NO_POOLS[0]
  {
  }


  /** The number of lines: one per section comment and one per sample, or the single
      "no pools" comment; two more when the lookup was timed. */
  lemma ReportLength<T>(pools: seq<Zfs.PoolMetrics<T>>, age: T -> string, lookupMicros: Option<nat>)
    requires AllDescribable(pools)
    ensures |Report(pools, age, lookupMicros)|
         == (if pools == [] then 1 else 5 * (1 + |pools|) + 4 * (1 + DeviceCount(pools)))
          + (if lookupMicros.Some? then 2 else 0)
  {
    if pools != [] {
      PoolSectionOrder(pools, age);
      DeviceSectionOrder(pools);
    }
  }

  /** The report opens with the "no pools" comment exactly when no pool was reported;
      otherwise it opens with the pool state section's comment. */
  lemma ReportOpening<T>(pools: seq<Zfs.PoolMetrics<T>>, age: T -> string, lookupMicros: Option<nat>)
    requires AllDescribable(pools)
    ensures |Report(pools, age, lookupMicros)| > 0
    ensures Report(pools, age, lookupMicros)[0] == Comment(NO_POOLS) <==> pools == []
    ensures pools != [] ==> Report(pools, age, lookupMicros)[0] == Comment(PoolState.Header())
  {
    if pools != [] {
      PoolSectionOrder(pools, age);
      var r := Report(pools, age, lookupMicros);
      assert r[0] == PoolBlock(PoolState, pools, age)[0];
      assert PoolState.Header()[0] != NO_POOLS[0];
    }
  }

  /** A sample of the lookup metric. */
  predicate IsLookup(line: Line) {
    line.Sample? && line.metric == LOOKUP_METRIC
  }

  predicate HasLookup(lines: seq<Line>) {
    exists i :: 0 <= i < |lines| && IsLookup(lines[i])
  }

  predicate NoLookup(lines: seq<Line>) {
    forall i :: 0 <= i < |lines| ==> !IsLookup(lines[i])
  }

  lemma NoLookupConcat(a: seq<Line>, b: seq<Line>)
    requires NoLookup(a) && NoLookup(b)
    ensures NoLookup(a + b)
  {
    forall i | 0 <= i < |a + b|
      ensures !IsLookup((a + b)[i])
    {
      if i >= |a| {
        assert (a + b)[i] == b[i - |a|];
      }
    }
  }

  /** A section block (its comment and samples of one metric) holds no lookup sample. */
  lemma BlockNoLookup(header: string, samples: seq<Line>, metric: string)
    requires OfMetric(samples, metric) && metric != LOOKUP_METRIC
    ensures NoLookup([Comment(header)] + samples)
  {
    forall i | 0 <= i < 1 + |samples|
      ensures !IsLookup(([Comment(header)] + samples)[i])
    {
      if i > 0 {
        assert ([Comment(header)] + samples)[i] == samples[i - 1];
      }
    }
  }

  lemma PoolBlockNoLookup<T>(section: PoolSection, pools: seq<Zfs.PoolMetrics<T>>, age: T -> string)
    requires AllDescribable(pools)
    ensures NoLookup(PoolBlock(section, pools, age))
  {
    var b := PoolBlock(section, pools, age);
    assert b == [Comment(section.Header())] + b[1..];
    assert OfMetric(b[1..], section.Metric()) by {
      forall i | 0 <= i < |b[1..]|
        ensures b[1..][i].Sample? && b[1..][i].metric == section.Metric()
      {
        assert b[1..][i] == b[i + 1];
      }
    }
    BlockNoLookup(section.Header(), b[1..], section.Metric());
  }

  lemma DeviceBlockNoLookup<T>(section: DeviceSection, pools: seq<Zfs.PoolMetrics<T>>)
    ensures NoLookup(DeviceBlock(section, pools))
  {
    DeviceSamplesMetric(section, pools);
    BlockNoLookup(section.Header(), DeviceSamples(section, pools), section.Metric());
  }

  /** The sections hold no lookup sample. */
  lemma SectionsNoLookup<T>(pools: seq<Zfs.PoolMetrics<T>>, age: T -> string)
    requires AllDescribable(pools)
    ensures NoLookup(PoolSectionLines(pools, age) + DeviceSectionLines(pools))
  {
    PoolSectionOrder(pools, age);
    PoolBlockNoLookup(PoolState, pools, age);
    PoolBlockNoLookup(PoolStatusDescription, pools, age);
    PoolBlockNoLookup(ScanState, pools, age);
    PoolBlockNoLookup(ScanAge, pools, age);
    PoolBlockNoLookup(ErrorState, pools, age);
    var p1 := PoolBlock(PoolState, pools, age) + PoolBlock(PoolStatusDescription, pools, age);
    NoLookupConcat(PoolBlock(PoolState, pools, age), PoolBlock(PoolStatusDescription, pools, age));
    NoLookupConcat(p1, PoolBlock(ScanState, pools, age));
    NoLookupConcat(p1 + PoolBlock(ScanState, pools, age), PoolBlock(ScanAge, pools, age));
    NoLookupConcat(p1 + PoolBlock(ScanState, pools, age) + PoolBlock(ScanAge, pools, age), PoolBlock(ErrorState, pools, age));
    DeviceSectionOrder(pools);
    DeviceBlockNoLookup(State, pools);
    DeviceBlockNoLookup(ErrorsRead, pools);
    DeviceBlockNoLookup(ErrorsWrite, pools);
    DeviceBlockNoLookup(ErrorsChecksum, pools);
    var d1 := DeviceBlock(State, pools) + DeviceBlock(ErrorsRead, pools);
    NoLookupConcat(DeviceBlock(State, pools), DeviceBlock(ErrorsRead, pools));
    NoLookupConcat(d1, DeviceBlock(ErrorsWrite, pools));
    NoLookupConcat(d1 + DeviceBlock(ErrorsWrite, pools), DeviceBlock(ErrorsChecksum, pools));
    NoLookupConcat(PoolSectionLines(pools, age), DeviceSectionLines(pools));
  }

  /** The lookup's duration is reported exactly when the lookup was timed, and then
      as the last two lines: the comment, then the sample with the microseconds. */
  lemma ReportLookup<T>(pools: seq<Zfs.PoolMetrics<T>>, age: T -> string, lookupMicros: Option<nat>)
    requires AllDescribable(pools)
    ensures HasLookup(Report(pools, age, lookupMicros)) <==> lookupMicros.Some?
    ensures lookupMicros.Some? ==>
      var r := Report(pools, age, lookupMicros);
      && |r| >= 2
      && r[|r| - 2] == Comment(LOOKUP_COMMENT)
      && r[|r| - 1] == Sample(LOOKUP_METRIC, [], Decimal(lookupMicros.value))
  {
    if pools == [] {
      assert NoLookup([Comment(NO_POOLS)]);
      LookupLast([Comment(NO_POOLS)], lookupMicros);
      assert Report(pools, age, lookupMicros) == [Comment(NO_POOLS)] + LookupLines(lookupMicros);
    } else {
      SectionsNoLookup(pools, age);
      LookupLast(PoolSectionLines(pools, age) + DeviceSectionLines(pools), lookupMicros);
    }
  }

  /** Lines free of the lookup metric, then the lookup lines: the metric appears
      exactly when the lookup was timed, in the last two lines. */
  lemma LookupLast(body: seq<Line>, lookupMicros: Option<nat>)
    requires NoLookup(body)
    ensures HasLookup(body + LookupLines(lookupMicros)) <==> lookupMicros.Some?
    ensures lookupMicros.Some? ==>
      var r := body + LookupLines(lookupMicros);
      && |r| >= 2
      && r[|r| - 2] == Comment(LOOKUP_COMMENT)
      && r[|r| - 1] == Sample(LOOKUP_METRIC, [], Decimal(lookupMicros.value))
  {
    var r := body + LookupLines(lookupMicros);
    if lookupMicros.None? {
      assert r == body;
    } else {
      assert IsLookup(r[|r| - 1]);
    }
  }
}
