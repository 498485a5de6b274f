/** The value tables of the first metric formatter, kept inline in src/lib.rs
    (`mod fmt`): one stable code per parsed value of `LegacyZfs`, with the default
    `UnknownMissing = 0` for a missing header line. The generic parts of the
    `value_enum!` macro are those of `Macros`. */
module LegacyFmt {
  import opened Wrappers
  import opened RustStr
  import opened Macros
  import LegacyZfs

  // ================================================================ value tables

  datatype PoolStateValue =
    | UnknownMissing
    | Unrecognized
    | Online
    | Degraded
    | Faulted
    | Offline
    | Removed
    | Split
    | Unavail
  {
    /** Position in declaration order. */
    function Ordinal(): nat {
      match this
      case UnknownMissing => 0
      case Unrecognized => 1
      case Online => 2
      case Degraded => 3
      case Faulted => 4
      case Offline => 5
      case Removed => 6
      case Split => 7
      case Unavail => 8
    }

    function Value(): u32 {
      match this
      case UnknownMissing => 0
      case Unrecognized => 1
      case Online => 2
      case Degraded => 3
      case Faulted => 4
      case Offline => 5
      case Removed => 6
      case Split => 7
      case Unavail => 8
    }

    function Name(): string {
      match this
      case UnknownMissing => "UnknownMissing"
      case Unrecognized => "Unrecognized"
      case Online => "Online"
      case Degraded => "Degraded"
      case Faulted => "Faulted"
      case Offline => "Offline"
      case Removed => "Removed"
      case Split => "Split"
      case Unavail => "Unavail"
    }
  }

  /** `ALL`, in declaration order. */
  const POOL_STATE_VALUES: seq<PoolStateValue> := [
    PoolStateValue.UnknownMissing, PoolStateValue.Unrecognized, Online, Degraded, Faulted,
    Offline, Removed, Split, Unavail
  ]

  function PoolStateTable(): (t: seq<Entry>)
    ensures |t| == |POOL_STATE_VALUES|
    ensures forall i :: 0 <= i < |t| ==>
      t[i] == Entry(POOL_STATE_VALUES[i].Name(), POOL_STATE_VALUES[i].Value())
  {
    seq(|POOL_STATE_VALUES|, i requires 0 <= i < |POOL_STATE_VALUES| =>
      Entry(POOL_STATE_VALUES[i].Name(), POOL_STATE_VALUES[i].Value()))
  }

  datatype ScanStatusValue =
    | UnknownMissing
    | Unrecognized
    | ScrubRepaired
  {
    function Ordinal(): nat {
      match this
      case UnknownMissing => 0
      case Unrecognized => 1
      case ScrubRepaired => 2
    }

    function Value(): u32 {
      match this
      case UnknownMissing => 0
      case Unrecognized => 1
      case ScrubRepaired => 2
    }

    function Name(): string {
      match this
      case UnknownMissing => "UnknownMissing"
      case Unrecognized => "Unrecognized"
      case ScrubRepaired => "ScrubRepaired"
    }
  }

  const SCAN_STATUS_VALUES: seq<ScanStatusValue> := [
    ScanStatusValue.UnknownMissing, ScanStatusValue.Unrecognized, ScrubRepaired
  ]

  function ScanStatusTable(): (t: seq<Entry>)
    ensures |t| == |SCAN_STATUS_VALUES|
    ensures forall i :: 0 <= i < |t| ==>
      t[i] == Entry(SCAN_STATUS_VALUES[i].Name(), SCAN_STATUS_VALUES[i].Value())
  {
    seq(|SCAN_STATUS_VALUES|, i requires 0 <= i < |SCAN_STATUS_VALUES| =>
      Entry(SCAN_STATUS_VALUES[i].Name(), SCAN_STATUS_VALUES[i].Value()))
  }

  datatype ErrorStatusValue =
    | UnknownMissing
    | Unrecognized
    | Ok
  {
    function Ordinal(): nat {
      match this
      case UnknownMissing => 0
      case Unrecognized => 1
      case Ok => 2
    }

    function Value(): u32 {
      match this
      case UnknownMissing => 0
      case Unrecognized => 1
      case Ok => 2
    }

    function Name(): string {
      match this
      case UnknownMissing => "UnknownMissing"
      case Unrecognized => "Unrecognized"
      case Ok => "Ok"
    }
  }

  const ERROR_STATUS_VALUES: seq<ErrorStatusValue> := [
    ErrorStatusValue.UnknownMissing, ErrorStatusValue.Unrecognized, Ok
  ]

  function ErrorStatusTable(): (t: seq<Entry>)
    ensures |t| == |ERROR_STATUS_VALUES|
    ensures forall i :: 0 <= i < |t| ==>
      t[i] == Entry(ERROR_STATUS_VALUES[i].Name(), ERROR_STATUS_VALUES[i].Value())
  {
    seq(|ERROR_STATUS_VALUES|, i requires 0 <= i < |ERROR_STATUS_VALUES| =>
      Entry(ERROR_STATUS_VALUES[i].Name(), ERROR_STATUS_VALUES[i].Value()))
  }

  /** `ALL` lists every variant exactly once, at its declaration position; the
      default comes first with code 0 and the codes strictly increase. */
  lemma PoolStateValueTable()
    ensures forall v: PoolStateValue :: v.Ordinal() < |POOL_STATE_VALUES| && POOL_STATE_VALUES[v.Ordinal()] == v
    ensures forall i :: 0 <= i < |POOL_STATE_VALUES| ==> POOL_STATE_VALUES[i].Ordinal() == i
    ensures ValueTable(PoolStateTable())
  {
  }

  /** No two variants share a code. */
  lemma {:induction false} PoolStateValueInjective(a: PoolStateValue, b: PoolStateValue)
    ensures a.Value() == b.Value() ==> a == b
  {
    PoolStateValueTable();
    var t := PoolStateTable();
    if a.Ordinal() < b.Ordinal() {
      AscendingDistinct(t, a.Ordinal(), b.Ordinal());
    } else if b.Ordinal() < a.Ordinal() {
      AscendingDistinct(t, b.Ordinal(), a.Ordinal());
    }
  }

  lemma ScanStatusValueTable()
    ensures forall v: ScanStatusValue :: v.Ordinal() < |SCAN_STATUS_VALUES| && SCAN_STATUS_VALUES[v.Ordinal()] == v
    ensures forall i :: 0 <= i < |SCAN_STATUS_VALUES| ==> SCAN_STATUS_VALUES[i].Ordinal() == i
    ensures ValueTable(ScanStatusTable())
  {
  }

  lemma {:induction false} ScanStatusValueInjective(a: ScanStatusValue, b: ScanStatusValue)
    ensures a.Value() == b.Value() ==> a == b
  {
    ScanStatusValueTable();
    var t := ScanStatusTable();
    if a.Ordinal() < b.Ordinal() {
      AscendingDistinct(t, a.Ordinal(), b.Ordinal());
    } else if b.Ordinal() < a.Ordinal() {
      AscendingDistinct(t, b.Ordinal(), a.Ordinal());
    }
  }

  lemma ErrorStatusValueTable()
    ensures forall v: ErrorStatusValue :: v.Ordinal() < |ERROR_STATUS_VALUES| && ERROR_STATUS_VALUES[v.Ordinal()] == v
    ensures forall i :: 0 <= i < |ERROR_STATUS_VALUES| ==> ERROR_STATUS_VALUES[i].Ordinal() == i
    ensures ValueTable(ErrorStatusTable())
  {
  }

  lemma {:induction false} ErrorStatusValueInjective(a: ErrorStatusValue, b: ErrorStatusValue)
    ensures a.Value() == b.Value() ==> a == b
  {
    ErrorStatusValueTable();
    var t := ErrorStatusTable();
    if a.Ordinal() < b.Ordinal() {
      AscendingDistinct(t, a.Ordinal(), b.Ordinal());
    } else if b.Ordinal() < a.Ordinal() {
      AscendingDistinct(t, b.Ordinal(), a.Ordinal());
    }
  }

  // ================================================================ From and from_opt

  /** `From<PoolStatus>`: the variant of the same name, never the default. */
  function PoolStateValueFrom(s: LegacyZfs.PoolStatus): (r: PoolStateValue)
    ensures r.Name() == s.Name()
    ensures r != PoolStateValue.UnknownMissing
  {
    match s
    case Unrecognized => PoolStateValue.Unrecognized
    case Offline => Offline
    case Removed => Removed
    case Faulted => Faulted
    case Split => Split
    case Unavail => Unavail
    case Degraded => Degraded
    case Online => Online
  }

  function ScanStatusValueFrom(s: LegacyZfs.ScanStatus): (r: ScanStatusValue)
    ensures r.Name() == s.Name()
    ensures r != ScanStatusValue.UnknownMissing
  {
    match s
    case Unrecognized => ScanStatusValue.Unrecognized
    case ScrubRepaired => ScrubRepaired
  }

  /** `From<(ScanStatus, T)>`: the second component plays no part. */
  function ScanStatusValueFromPair<T>(p: (LegacyZfs.ScanStatus, T)): (r: ScanStatusValue)
    ensures r.Name() == p.0.Name()
  {
    ScanStatusValueFrom(p.0)
  }

  lemma ScanStatusPairIgnoresTime<T>(s: LegacyZfs.ScanStatus, t1: T, t2: T)
    ensures ScanStatusValueFromPair((s, t1)) == ScanStatusValueFromPair((s, t2))
  {
  }

  function ErrorStatusValueFrom(s: LegacyZfs.ErrorStatus): (r: ErrorStatusValue)
    ensures r.Name() == s.Name()
    ensures r != ErrorStatusValue.UnknownMissing
  {
    match s
    case Unrecognized => ErrorStatusValue.Unrecognized
    case Ok => Ok
  }

  /** `from_opt`: 0 exactly when the value is absent, otherwise the value's code. */
  function PoolStateFromOpt(s: Option<LegacyZfs.PoolStatus>): (r: u32)
    ensures r == 0 <==> s.None?
    ensures s.Some? ==> r == PoolStateValueFrom(s.value).Value()
  {
    match s
    case None => PoolStateValue.UnknownMissing.Value()
    case Some(x) => PoolStateValueFrom(x).Value()
  }

  function ScanStatusFromOpt<T>(s: Option<(LegacyZfs.ScanStatus, T)>): (r: u32)
    ensures r == 0 <==> s.None?
    ensures s.Some? ==> r == ScanStatusValueFrom(s.value.0).Value()
  {
    match s
    case None => ScanStatusValue.UnknownMissing.Value()
    case Some(x) => ScanStatusValueFromPair(x).Value()
  }

  function ErrorStatusFromOpt(s: Option<LegacyZfs.ErrorStatus>): (r: u32)
    ensures r == 0 <==> s.None?
    ensures s.Some? ==> r == ErrorStatusValueFrom(s.value).Value()
  {
    match s
    case None => ErrorStatusValue.UnknownMissing.Value()
    case Some(x) => ErrorStatusValueFrom(x).Value()
  }

  /** Distinct parsed values get distinct codes, so a code read back names the value
      it came from; 1 is the code of every unrecognised message. */
  lemma LegacyCodesInjective(a: Option<LegacyZfs.PoolStatus>, b: Option<LegacyZfs.PoolStatus>,
                                c: LegacyZfs.ErrorStatus, d: LegacyZfs.ErrorStatus)
    ensures PoolStateFromOpt(a) == PoolStateFromOpt(b) ==> a == b
    ensures ErrorStatusValueFrom(c).Value() == ErrorStatusValueFrom(d).Value() ==> c == d
    ensures PoolStateFromOpt(a) == 1 <==> a == Some(LegacyZfs.PoolStatus.Unrecognized)
  {
    if a.Some? && b.Some? {
      PoolStateValueInjective(PoolStateValueFrom(a.value), PoolStateValueFrom(b.value));
    }
    ErrorStatusValueInjective(ErrorStatusValueFrom(c), ErrorStatusValueFrom(d));
  }
}
