/** The sans-IO parser for the text `zpool status` prints (src/zfs.rs).

    Free-text fields are classified by total functions that fall back to an
    `Unrecognized` value, so a novel message never stops the exporter; only text that
    breaks the layout (an unknown header label, a malformed device row, a missing
    device table) makes the whole parse fail, naming the offending line.

    The timestamp of a scan is kept abstract: the record is generic in its type `T`,
    and the timestamp parser is a parameter. */
module Zfs {
  import opened Wrappers
  import opened RustStr

  // ================================================================ values

  /** State of a pool or of one device in its tree. */
  datatype DeviceStatus =
    | Unrecognized
    | Online
    | Offline
    | Split
    | Degraded
    | Faulted
    | Suspended
    | Removed
    | Unavail
  {
    /** The variant's name as `Debug` prints it. */
    function Name(): string {
      match this
      case Unrecognized => "Unrecognized"
      case Online => "Online"
      case Offline => "Offline"
      case Split => "Split"
      case Degraded => "Degraded"
      case Faulted => "Faulted"
      case Suspended => "Suspended"
      case Removed => "Removed"
      case Unavail => "Unavail"
    }
  }

  /** The explanation printed after `status:`. */
  datatype PoolStatusDescription =
    | Unrecognized
    | FeaturesAvailable
    | SufficientReplicasForMissing
    | DeviceRemoved
    | DataCorruption
  {
    function Name(): string {
      match this
      case Unrecognized => "Unrecognized"
      case FeaturesAvailable => "FeaturesAvailable"
      case SufficientReplicasForMissing => "SufficientReplicasForMissing"
      case DeviceRemoved => "DeviceRemoved"
      case DataCorruption => "DataCorruption"
    }
  }

  /** What the last scan (scrub or resilver) did. */
  datatype ScanStatus =
    | Unrecognized
    | ScrubRepaired
    | Resilvered
    | ScrubInProgress
  {
    function Name(): string {
      match this
      case Unrecognized => "Unrecognized"
      case ScrubRepaired => "ScrubRepaired"
      case Resilvered => "Resilvered"
      case ScrubInProgress => "ScrubInProgress"
    }
  }

  /** The summary printed after `errors:`. */
  datatype ErrorStatus =
    | Unrecognized
    | Ok
    | DataErrors
  {
    function Name(): string {
      match this
      case Unrecognized => "Unrecognized"
      case Ok => "Ok"
      case DataErrors => "DataErrors"
    }
  }

  /** One row of the device table. `depth` is 0 for the pool's own row. */
  datatype DeviceMetrics = DeviceMetrics(
    depth: nat,
    name: string,
    state: DeviceStatus,
    errorsRead: u32,
    errorsWrite: u32,
    errorsChecksum: u32)

  /** Everything reported about one pool. A field is `None` when its header line is
      absent. */
  datatype PoolMetrics<T> = PoolMetrics(
    name: string,
    state: Option<DeviceStatus>,
    poolStatus: Option<PoolStatusDescription>,
    scanStatus: Option<(ScanStatus, T)>,
    devices: seq<DeviceMetrics>,
    error: Option<ErrorStatus>)

  /** A fresh record for a `pool:` line. */
  function NewPool<T>(name: string): (p: PoolMetrics<T>)
    ensures p.name == name && p.devices == []
    ensures p.state.None? && p.poolStatus.None? && p.scanStatus.None? && p.error.None?
  {
    PoolMetrics(name, None, None, None, [], None)
  }

  // ================================================================ classifiers

  /** The token `zpool status` prints for a recognised state. */
  function DeviceStatusToken(s: DeviceStatus): string
    requires s != DeviceStatus.Unrecognized
  {
    match s
    case Online => "ONLINE"
    case Offline => "OFFLINE"
    case Split => "SPLIT"
    case Degraded => "DEGRADED"
    case Faulted => "FAULTED"
    case Suspended => "SUSPENDED"
    case Removed => "REMOVED"
    case Unavail => "UNAVAIL"
  }

  /** A state token, matched exactly (case and all); anything else is Unrecognized. */
  function DeviceStatusOf(token: string): (r: DeviceStatus)
    ensures r != DeviceStatus.Unrecognized ==> token == DeviceStatusToken(r)
  {
    match token
    case "ONLINE" => Online
    case "OFFLINE" => Offline
    case "SPLIT" => Split
    case "DEGRADED" => Degraded
    case "FAULTED" => Faulted
    case "SUSPENDED" => Suspended
    case "REMOVED" => Removed
    case "UNAVAIL" => Unavail
    case _ => DeviceStatus.Unrecognized
  }

  /** Every recognised state is read back from its own token. */
  lemma DeviceStatusTokenRoundTrip(s: DeviceStatus)
    requires s != DeviceStatus.Unrecognized
    ensures DeviceStatusOf(DeviceStatusToken(s)) == s
  {
  }

  // The explanations as `zpool status` prints them once their continuation lines are
  // joined back with a line feed (the leading tab of each continuation is dropped).
  // Each is written as its opening words, up to where it parts from the others, and
  // the remainder, so the proofs below can see those opening words.

  const SUFFICIENT_REPLICAS: string :=
    "One or more devices could"
    + " not be used because the label is missing or\ninvalid.  Sufficient replicas exist for the pool to continue\nfunctioning in a degraded state"

  const DATA_CORRUPTION: string :=
    "One or more devices has experienced"
    + " an error resulting in data\ncorruption.  Applications may be affected"

  const FEATURES_AVAILABLE: seq<string> := [
    "Some supported and"
    + " requested features are not enabled on the pool.\nThe pool can still be used, but some features are unavailable.",
    "Some supported features"
    + " are not enabled on the pool. The pool can\nstill be used, but some features are unavailable."
  ]

  const DEVICE_REMOVED: string :=
    "One or more devices has been"
    + " removed by the administrator.\nSufficient replicas exist for the pool to continue functioning in a\ndegraded state."

  /** The explanation that selects a recognised description (the first of the two
      for FeaturesAvailable). */
  function PoolStatusPhrase(d: PoolStatusDescription): string
    requires d != PoolStatusDescription.Unrecognized
  {
    match d
    case FeaturesAvailable => FEATURES_AVAILABLE[0]
    case SufficientReplicasForMissing => SUFFICIENT_REPLICAS
    case DeviceRemoved => DEVICE_REMOVED
    case DataCorruption => DATA_CORRUPTION
  }

  /** The explanation is matched by prefix, in a fixed order. */
  function PoolStatusOf(text: string): (r: PoolStatusDescription)
    ensures r == FeaturesAvailable ==>
      exists i :: 0 <= i < |FEATURES_AVAILABLE| && StartsWith(text, FEATURES_AVAILABLE[i])
    ensures r != PoolStatusDescription.Unrecognized && r != FeaturesAvailable ==>
      StartsWith(text, PoolStatusPhrase(r))
  {
    if StartsWith(text, SUFFICIENT_REPLICAS) then SufficientReplicasForMissing
    else if StartsWith(text, DATA_CORRUPTION) then DataCorruption
    else if exists i :: 0 <= i < |FEATURES_AVAILABLE| && StartsWith(text, FEATURES_AVAILABLE[i])
    then FeaturesAvailable
    else if StartsWith(text, DEVICE_REMOVED) then DeviceRemoved
    else PoolStatusDescription.Unrecognized
  }

  /** Two texts that differ at a position inside both cannot be prefixes of one another. */
  lemma DifferAt(a: string, b: string, i: nat, rest: string)
    requires i < |a| && i < |b| && a[i] != b[i]
    ensures !StartsWith(a + rest, b)
  {
    assert (a + rest)[i] == a[i];
  }

  lemma PrefixOfSelf(a: string, rest: string)
    ensures StartsWith(a + rest, a)
  {
    assert (a + rest)[..|a|] == a;
  }

  /** An explanation is recognised from its opening text, whatever follows it. */
  lemma PoolStatusOfPhrase(d: PoolStatusDescription, rest: string)
    requires d != PoolStatusDescription.Unrecognized
    ensures PoolStatusOf(PoolStatusPhrase(d) + rest) == d
  {
    PrefixOfSelf(PoolStatusPhrase(d), rest);
    match d
    case SufficientReplicasForMissing =>
    case DataCorruption =>
      DifferAt(DATA_CORRUPTION, SUFFICIENT_REPLICAS, 20, rest);
    case FeaturesAvailable =>
      DifferAt(FEATURES_AVAILABLE[0], SUFFICIENT_REPLICAS, 0, rest);
      DifferAt(FEATURES_AVAILABLE[0], DATA_CORRUPTION, 0, rest);
    case DeviceRemoved =>
      DifferAt(DEVICE_REMOVED, SUFFICIENT_REPLICAS, 20, rest);
      DifferAt(DEVICE_REMOVED, DATA_CORRUPTION, 24, rest);
      DifferAt(DEVICE_REMOVED, FEATURES_AVAILABLE[0], 0, rest);
      DifferAt(DEVICE_REMOVED, FEATURES_AVAILABLE[1], 0, rest);
  }

  /** The second wording of the features notice is recognised as well. */
  lemma PoolStatusOfFeaturesAlternative(rest: string)
    ensures PoolStatusOf(FEATURES_AVAILABLE[1] + rest) == FeaturesAvailable
  {
    PrefixOfSelf(FEATURES_AVAILABLE[1], rest);
    DifferAt(FEATURES_AVAILABLE[1], SUFFICIENT_REPLICAS, 0, rest);
    DifferAt(FEATURES_AVAILABLE[1], DATA_CORRUPTION, 0, rest);
  }

  /** The opening words that select a recognised scan status. */
  function ScanPhrase(s: ScanStatus): string
    requires s != ScanStatus.Unrecognized
  {
    match s
    case ScrubRepaired => "scrub repaired"
    case Resilvered => "resilvered"
    case ScrubInProgress => "scrub in progress"
  }

  /** The scan message is matched by prefix, in a fixed order. */
  function ScanStatusOf(message: string): (r: ScanStatus)
    ensures r != ScanStatus.Unrecognized ==> StartsWith(message, ScanPhrase(r))
  {
    if StartsWith(message, "scrub repaired") then ScrubRepaired
    else if StartsWith(message, "resilvered") then Resilvered
    else if StartsWith(message, "scrub in progress") then ScrubInProgress
    else ScanStatus.Unrecognized
  }

  /** A scan message is recognised from its opening words, whatever follows them. */
  lemma ScanStatusOfPhrase(s: ScanStatus, rest: string)
    requires s != ScanStatus.Unrecognized
    ensures ScanStatusOf(ScanPhrase(s) + rest) == s
  {
    PrefixOfSelf(ScanPhrase(s), rest);
    match s
    case ScrubRepaired =>
    case Resilvered =>
      DifferAt("resilvered", "scrub repaired", 0, rest);
    case ScrubInProgress =>
      DifferAt("scrub in progress", "scrub repaired", 6, rest);
      DifferAt("scrub in progress", "resilvered", 0, rest);
  }

  const NO_KNOWN_DATA_ERRORS: string := "No known data errors"

  /** The text after the first space (empty when there is none). */
  function AfterFirstWord(text: string): (r: string)
    ensures ' ' !in text ==> r == []
  {
    match SplitOnceChar(text, ' ')
    case Some((_, remainder)) => remainder
    case None => []
  }

  /** `errors:` is Ok for the all-clear message, DataErrors when its second word
      starts "data errors" (after a count), and Unrecognized otherwise. */
  function ErrorStatusOf(text: string): (r: ErrorStatus)
    ensures r == Ok <==> StartsWith(text, NO_KNOWN_DATA_ERRORS)
    ensures r == DataErrors <==>
      !StartsWith(text, NO_KNOWN_DATA_ERRORS) && StartsWith(AfterFirstWord(text), "data errors")
  {
    if StartsWith(text, NO_KNOWN_DATA_ERRORS) then Ok
    else if StartsWith(AfterFirstWord(text), "data errors") then DataErrors
    else ErrorStatus.Unrecognized
  }

  /** A text that starts with a word other than "No" cannot start with the all-clear
      message. */
  lemma NotAllClear(count: string, rest: string)
    requires ' ' !in count && count != "No"
    ensures !StartsWith(count + " " + rest, NO_KNOWN_DATA_ERRORS)
  {
    var text := count + " " + rest;
    if |count| > 2 {
      DifferAt(text, NO_KNOWN_DATA_ERRORS, 2, []);
      assert text + [] == text;
    } else if |count| < 2 {
      assert text[|count|] == ' ';
      DifferAt(text, NO_KNOWN_DATA_ERRORS, |count|, []);
      assert text + [] == text;
    } else {
      assert text[..2] == count;
      assert NO_KNOWN_DATA_ERRORS[..2] == "No";
    }
  }

  /** A word without spaces, a space, then text starting "data errors". */
  lemma ErrorStatusOfWordThen(count: string, tail: string)
    requires ' ' !in count && StartsWith(tail, "data errors")
    ensures ErrorStatusOf(count + " " + tail) == DataErrors
  {
    var text := count + " " + tail;
    SplitOnceCharAt(count, ' ', tail);
    assert AfterFirstWord(text) == tail;
    if count == "No" {
      assert text[3] == tail[0] == 'd';
      assert NO_KNOWN_DATA_ERRORS[3] == 'k';
    } else {
      NotAllClear(count, tail);
    }
  }

  /** A count of data errors is recognised whatever the count and the trailing text. */
  lemma ErrorStatusOfCount(count: string, rest: string)
    requires ' ' !in count
    ensures ErrorStatusOf(count + " data errors" + rest) == DataErrors
  {
    assert count + " data errors" + rest == count + " " + ("data errors" + rest);
    PrefixOfSelf("data errors", rest);
    ErrorStatusOfWordThen(count, "data errors" + rest);
  }

  // ================================================================ device rows

  datatype DeviceErrorKind =
    | MissingLeadingWhitespace
    | MissingName
    | MissingState
    | MissingReadErrorCount
    | MissingWriteErrorCount
    | MissingChecksumErrorCount
    | InvalidLeadingWhitespace
    | InvalidCount(cell: string)

  /** A rejected device row; the name is known once the first cell has been read. */
  datatype DeviceError = DeviceError(deviceName: Option<string>, kind: DeviceErrorKind)

  /** `zpool status` indents each level of the device tree by two spaces. */
  const DEPTH_MULTIPLE: nat := 2

  /** Length of the leading run of spaces (only U+0020 counts). */
  function LeadingSpaces(s: string): (n: nat)
    ensures n <= |s|
    ensures forall i :: 0 <= i < n ==> s[i] == ' '
    ensures n < |s| ==> s[n] != ' '
  {
    if s != [] && s[0] == ' ' then 1 + LeadingSpaces(s[1..]) else 0
  }

  /** The error for a row that ends before cell `n` (0 = name, 1 = state, then the
      read, write and checksum counters). */
  function MissingCell(n: nat): DeviceErrorKind
    requires n < 5
  {
    match n
    case 0 => MissingName
    case 1 => MissingState
    case 2 => MissingReadErrorCount
    case 3 => MissingWriteErrorCount
    case _ => MissingChecksumErrorCount
  }

  /** Counter cell `i` of a row with a name, parsed as a u32. */
  function ParseCount(cells: seq<string>, i: nat, ifMissing: DeviceErrorKind): Result<u32, DeviceError>
    requires |cells| > 0
  {
    if i >= |cells| then Failure(DeviceError(Some(cells[0]), ifMissing))
    else match ParseU32(cells[i])
      case None => Failure(DeviceError(Some(cells[0]), InvalidCount(cells[i])))
      case Some(v) => Success(v)
  }

  /** A row is accepted when it has at least five cells and cells 2 to 4 are u32s. */
  predicate RowCellsValid(cells: seq<string>) {
    && |cells| >= 5
    && ParseU32(cells[2]).Some?
    && ParseU32(cells[3]).Some?
    && ParseU32(cells[4]).Some?
  }

  /** The cells of a row (after its indentation), read in column order; cells past
      the fifth are ignored. */
  function DeviceFromCells(depth: nat, cells: seq<string>): (r: Result<DeviceMetrics, DeviceError>)
    ensures r.Success? <==> RowCellsValid(cells)
    ensures r.Success? ==>
      && r.value.depth == depth
      && r.value.name == cells[0]
      && r.value.state == DeviceStatusOf(cells[1])
      && ParseU32(cells[2]) == Some(r.value.errorsRead)
      && ParseU32(cells[3]) == Some(r.value.errorsWrite)
      && ParseU32(cells[4]) == Some(r.value.errorsChecksum)
    ensures r.Failure? ==> r.error.deviceName == (if |cells| == 0 then None else Some(cells[0]))
    ensures r.Failure? && !r.error.kind.InvalidCount? ==>
      && |cells| < 5
      && r.error.kind == MissingCell(|cells|)
      && forall j :: 2 <= j < |cells| ==> ParseU32(cells[j]).Some?
    ensures r.Failure? && r.error.kind.InvalidCount? ==>
      exists i :: 2 <= i < |cells| && i < 5
        && r.error.kind.cell == cells[i] && ParseU32(cells[i]).None?
        && forall j :: 2 <= j < i ==> ParseU32(cells[j]).Some?
  {
    if |cells| == 0 then Failure(DeviceError(None, MissingName))
    else if |cells| == 1 then Failure(DeviceError(Some(cells[0]), MissingState))
    else
      var state := DeviceStatusOf(cells[1]);
      var read :- ParseCount(cells, 2, MissingReadErrorCount);
      var write :- ParseCount(cells, 3, MissingWriteErrorCount);
      var checksum :- ParseCount(cells, 4, MissingChecksumErrorCount);
      Success(DeviceMetrics(depth, cells[0], state, read, write, checksum))
  }

  /** A device-table row: a tab, then spaces giving the depth, then cells separated by
      whitespace. Anything before the first tab makes the row malformed. */
  function DeviceFromStr(line: string): (r: Result<DeviceMetrics, DeviceError>)
    ensures '\t' !in line ==> r == Failure(DeviceError(None, MissingLeadingWhitespace))
    ensures '\t' in line && line[0] != '\t' ==> r == Failure(DeviceError(None, InvalidLeadingWhitespace))
    ensures line != [] && line[0] == '\t' ==>
      r == DeviceFromCells(LeadingSpaces(line[1..]) / DEPTH_MULTIPLE, SplitWhitespace(line[1..]))
    ensures r.Success? ==> IsCell(r.value.name)
  {
    match SplitOnceChar(line, '\t')
    case None => Failure(DeviceError(None, MissingLeadingWhitespace))
    case Some((beforeTab, rest)) =>
      if beforeTab != [] then Failure(DeviceError(None, InvalidLeadingWhitespace))
      else
        var depthChars := LeadingSpaces(rest);
        assert line[1..] == rest;
        assert SplitWhitespace(rest[depthChars..]) == SplitWhitespace(rest) by {
          assert rest == rest[..depthChars] + rest[depthChars..];
          assert AllWhitespace(rest[..depthChars]);
          SplitWhitespaceLeading(rest[..depthChars], rest[depthChars..]);
        }
        DeviceFromCells(depthChars / DEPTH_MULTIPLE, SplitWhitespace(rest[depthChars..]))
  }

  function Spaces(n: nat): (r: string)
    ensures |r| == n && forall i :: 0 <= i < n ==> r[i] == ' '
  {
    if n == 0 then [] else [' '] + Spaces(n - 1)
  }

  /** A row as `zpool status` lays it out: a tab, two spaces per level of depth, then
      the name, state and counters, and any trailing note cells, one space apart. */
  function DeviceRow(d: DeviceMetrics, notes: seq<string>): string
    requires d.state != DeviceStatus.Unrecognized
  {
    "\t" + Spaces(DEPTH_MULTIPLE * d.depth) + Join(RowCells(d) + notes, " ")
  }

  function RowCells(d: DeviceMetrics): seq<string>
    requires d.state != DeviceStatus.Unrecognized
  {
    [d.name, DeviceStatusToken(d.state), Decimal(d.errorsRead), Decimal(d.errorsWrite), Decimal(d.errorsChecksum)]
  }

  lemma DigitsAreCell(s: string)
    requires s != [] && AllDigits(s)
    ensures IsCell(s)
  {
    forall i | 0 <= i < |s|
      ensures !IsWhitespace(s[i])
    {
      assert IsDigit(s[i]);
    }
  }

  lemma TokenIsCell(s: DeviceStatus)
    requires s != DeviceStatus.Unrecognized
    ensures IsCell(DeviceStatusToken(s))
  {
    var t := DeviceStatusToken(s);
    forall i | 0 <= i < |t|
      ensures !IsWhitespace(t[i])
    {
      assert 'A' <= t[i] <= 'Z';
    }
  }

  lemma RowCellsAreCells(d: DeviceMetrics, notes: seq<string>)
    requires d.state != DeviceStatus.Unrecognized && IsCell(d.name) && AllCells(notes)
    ensures AllCells(RowCells(d) + notes)
  {
    TokenIsCell(d.state);
    DigitsAreCell(Decimal(d.errorsRead));
    DigitsAreCell(Decimal(d.errorsWrite));
    DigitsAreCell(Decimal(d.errorsChecksum));
    var cells := RowCells(d) + notes;
    forall i | 0 <= i < |cells|
      ensures IsCell(cells[i])
    {
      if i >= 5 {
        assert cells[i] == notes[i - 5];
      }
    }
  }

  /** An indented row reads its depth from the indentation and its cells from the rest. */
  lemma IndentedRow(indent: nat, body: string)
    requires body != [] && body[0] != ' '
    ensures DeviceFromStr("\t" + Spaces(indent) + body)
         == DeviceFromCells(indent / DEPTH_MULTIPLE, SplitWhitespace(body))
  {
    var sp := Spaces(indent);
    var line := "\t" + sp + body;
    assert line == "\t" + (sp + body);
    assert line[1..] == sp + body;
    assert LeadingSpaces(sp + body) == indent by {
      assert (sp + body)[indent] == body[0];
      assert forall i :: 0 <= i < indent ==> (sp + body)[i] == ' ';
    }
    assert AllWhitespace(sp);
    SplitWhitespaceLeading(sp, body);
  }

  lemma RowCellsRead(d: DeviceMetrics, notes: seq<string>)
    requires d.state != DeviceStatus.Unrecognized
    ensures DeviceFromCells(d.depth, RowCells(d) + notes) == Success(d)
  {
    var cells := RowCells(d) + notes;
    assert cells[0] == d.name && cells[1] == DeviceStatusToken(d.state);
    assert cells[2] == Decimal(d.errorsRead);
    assert cells[3] == Decimal(d.errorsWrite);
    assert cells[4] == Decimal(d.errorsChecksum);
    ParseU32Decimal(d.errorsRead);
    ParseU32Decimal(d.errorsWrite);
    ParseU32Decimal(d.errorsChecksum);
    DeviceStatusTokenRoundTrip(d.state);
  }

  /** Printing a device as a table row and parsing the row gives the device back,
      for every depth and every u32 counter, whatever note cells follow. */
  lemma DeviceRowRoundTrip(d: DeviceMetrics, notes: seq<string>)
    requires d.state != DeviceStatus.Unrecognized && IsCell(d.name) && AllCells(notes)
    ensures DeviceFromStr(DeviceRow(d, notes)) == Success(d)
  {
    var cells := RowCells(d) + notes;
    var body := Join(cells, " ");
    var indent := DEPTH_MULTIPLE * d.depth;
    assert DeviceRow(d, notes) == "\t" + Spaces(indent) + body;
    assert SplitWhitespace(body) == cells by {
      RowCellsAreCells(d, notes);
      SplitWhitespaceJoin(cells);
    }
    assert body != [] && body[0] != ' ' by {
      JoinEnds(cells, " ");
      assert body[0] == cells[0][0] == d.name[0];
      assert !IsWhitespace(d.name[0]);
    }
    IndentedRow(indent, body);
    assert indent / DEPTH_MULTIPLE == d.depth;
    RowCellsRead(d, notes);
  }

  // ================================================================ scan content

  datatype ScanError = MissingTimestampSeparator | ParseTimestamp(timestamp: string)

  /** The words that introduce the scan's timestamp, tried in this order. */
  const TIME_SEPARATORS: seq<string> := [" on ", " since "]

  /** Everything before the first line feed (the whole text when there is none). */
  function FirstLine(content: string): (r: string)
    ensures '\n' !in r && StartsWith(content, r)
    ensures '\n' !in content ==> r == content
  {
    match SplitOnceChar(content, '\n')
    case Some((first, _)) =>
      assert content[..|first|] == first;
      first
    case None => content
  }

  /** Separator `i` is in the list and none before it occurs in `line`. */
  ghost predicate FirstOccurring(line: string, seps: seq<string>, i: int) {
    && 0 <= i < |seps|
    && forall j: nat, k: nat :: j < i ==> !MatchesAt(line, seps[j], k)
  }

  /** The text around the first occurrence of the first separator (in list order)
      that occurs at all. */
  function SplitAtSeparator(line: string, seps: seq<string>): (r: Option<(string, string)>)
    ensures r.None? <==> forall i: nat, k: nat :: i < |seps| ==> !MatchesAt(line, seps[i], k)
    decreases |seps|
  {
    if |seps| == 0 then None
    else match SplitOnceStr(line, seps[0])
      case Some(parts) => Some(parts)
      case None =>
        var r := SplitAtSeparator(line, seps[1..]);
        assert r.None? ==> forall i: nat, k: nat :: i < |seps| ==> !MatchesAt(line, seps[i], k) by {
          if r.None? {
            forall i: nat, k: nat | i < |seps|
              ensures !MatchesAt(line, seps[i], k)
            {
              if i > 0 {
                assert seps[i] == seps[1..][i - 1];
              }
            }
          }
        }
        r
  }

  /** A split found is the split at a separator none of whose predecessors occurs. */
  lemma {:induction false} SplitAtSeparatorFirst(line: string, seps: seq<string>)
    ensures SplitAtSeparator(line, seps).Some? ==>
      exists i :: FirstOccurring(line, seps, i) && SplitOnceStr(line, seps[i]) == SplitAtSeparator(line, seps)
    decreases |seps|
  {
    var r := SplitAtSeparator(line, seps);
    if |seps| > 0 && r.Some? {
      if SplitOnceStr(line, seps[0]).Some? {
        assert FirstOccurring(line, seps, 0);
      } else {
        assert r == SplitAtSeparator(line, seps[1..]);
        SplitAtSeparatorFirst(line, seps[1..]);
        var i :| FirstOccurring(line, seps[1..], i) && SplitOnceStr(line, seps[1..][i]) == r;
        assert seps[i + 1] == seps[1..][i];
        assert FirstOccurring(line, seps, i + 1) by {
          forall j: nat, k: nat | j < i + 1
            ensures !MatchesAt(line, seps[j], k)
          {
            if j > 0 {
              assert seps[j] == seps[1..][j - 1];
            }
          }
        }
      }
    }
  }

  /** The content of a `scan:` header: only its first line counts; the message before
      the separator is classified, and the text after it must parse as a timestamp. */
  function ParseScanContent<T>(content: string, parseTs: string -> Option<T>)
    : (r: Result<(ScanStatus, T), ScanError>)
    ensures r == Failure(MissingTimestampSeparator) <==>
      forall i: nat, k: nat :: 0 <= i < |TIME_SEPARATORS| ==> !MatchesAt(FirstLine(content), TIME_SEPARATORS[i], k)
    ensures r.Failure? && r.error.ParseTimestamp? ==> parseTs(r.error.timestamp).None?
  {
    match SplitAtSeparator(FirstLine(content), TIME_SEPARATORS)
    case None => Failure(MissingTimestampSeparator)
    case Some((message, timestamp)) =>
      match parseTs(timestamp)
      case None => Failure(ParseTimestamp(timestamp))
      case Some(t) => Success((ScanStatusOf(message), t))
  }

  /** Only the first line of the scan content is examined. */
  lemma ScanContentFirstLine<T>(first: string, more: string, parseTs: string -> Option<T>)
    requires '\n' !in first
    ensures ParseScanContent(first + "\n" + more, parseTs) == ParseScanContent(first, parseTs)
  {
    SplitOnceCharAt(first, '\n', more);
    assert FirstLine(first + "\n" + more) == first == FirstLine(first);
  }

  /** A message, " on ", and a timestamp: the message is classified and the timestamp
      parsed, provided " on " does not occur earlier. */
  lemma ScanContentOn<T>(message: string, ts: string, parseTs: string -> Option<T>)
    requires '\n' !in message + " on " + ts
    requires NoMatchBefore(message + " on " + ts, " on ", |message|)
    ensures ParseScanContent(message + " on " + ts, parseTs) ==
      if parseTs(ts).Some? then Success((ScanStatusOf(message), parseTs(ts).value))
      else Failure(ParseTimestamp(ts))
  {
    SplitOnceStrAt(message, " on ", ts);
  }

  /** " since " is used only when " on " occurs nowhere on the first line. */
  lemma ScanContentSince<T>(message: string, ts: string, parseTs: string -> Option<T>)
    requires '\n' !in message + " since " + ts
    requires forall k: nat :: !MatchesAt(message + " since " + ts, " on ", k)
    requires NoMatchBefore(message + " since " + ts, " since ", |message|)
    ensures ParseScanContent(message + " since " + ts, parseTs) ==
      if parseTs(ts).Some? then Success((ScanStatusOf(message), parseTs(ts).value))
      else Failure(ParseTimestamp(ts))
  {
    var line := message + " since " + ts;
    assert SplitOnceStr(line, " on ") == None;
    SplitOnceStrAt(message, " since ", ts);
    assert TIME_SEPARATORS[1..] == [" since "];
    assert SplitAtSeparator(line, [" since "]) == Some((message, ts));
  }

  // ================================================================ header lines

  /** Where the parser is within one pool's block of text. */
  datatype Section = Header | BlankBeforeDevices | Devices

  /** The value already recorded when a header line repeats. */
  datatype Previous<T> =
    | PreviousPoolStatus(poolStatus: PoolStatusDescription)
    | PreviousState(state: DeviceStatus)
    | PreviousScan(scan: (ScanStatus, T))
    | PreviousError(error: ErrorStatus)

  datatype HeaderErrorKind<T> =
    | DuplicateEntry(previous: Previous<T>)
    | ScanContent(scanError: ScanError)
    | ExpectedEmpty
    | UnknownLabel

  datatype HeaderError<T> = HeaderError(headerLabel: string, content: string, kind: HeaderErrorKind<T>)

  /** The labels a pool's header may carry after `pool:`. */
  const HEADER_LABELS: set<string> := {"status", "state", "scan", "config", "errors", "action", "see"}

  /** An optional field is left alone or filled in for the first time. */
  ghost predicate FillsIn<V>(before: Option<V>, after: Option<V>) {
    after == before || (before.None? && after.Some?)
  }

  /** `after` keeps the name and devices of `before` and never overwrites a field. */
  ghost predicate Refines<T>(before: PoolMetrics<T>, after: PoolMetrics<T>) {
    && after.name == before.name
    && after.devices == before.devices
    && FillsIn(before.state, after.state)
    && FillsIn(before.poolStatus, after.poolStatus)
    && FillsIn(before.scanStatus, after.scanStatus)
    && FillsIn(before.error, after.error)
  }

  /** One `label: content` header line applied to the current pool. Each metric may be
      given once; `config:` (with nothing after it) announces the device table;
      `action:` and `see:` carry no metric. The result's second part is the section to
      switch to, if any. */
  function AddLineHeader<T>(pool: PoolMetrics<T>, headerLabel: string, content: string, parseTs: string -> Option<T>)
    : (r: Result<(PoolMetrics<T>, Option<Section>), HeaderError<T>>)
    ensures r.Failure? ==> r.error.headerLabel == headerLabel && r.error.content == content
    ensures r.Success? ==> Refines(pool, r.value.0)
    ensures r.Success? ==> (r.value.1.Some? <==> headerLabel == "config")
    ensures r.Success? && r.value.1.Some? ==> r.value.1.value == BlankBeforeDevices
  {
    match headerLabel
    case "status" =>
      if pool.poolStatus.Some? then
        Failure(HeaderError(headerLabel, content, DuplicateEntry(PreviousPoolStatus(pool.poolStatus.value))))
      else Success((pool.(poolStatus := Some(PoolStatusOf(content))), None))
    case "state" =>
      if pool.state.Some? then
        Failure(HeaderError(headerLabel, content, DuplicateEntry(PreviousState(pool.state.value))))
      else Success((pool.(state := Some(DeviceStatusOf(content))), None))
    case "scan" =>
      (match ParseScanContent(content, parseTs)
       case Failure(e) => Failure(HeaderError(headerLabel, content, ScanContent(e)))
       case Success(scan) =>
         if pool.scanStatus.Some? then
           Failure(HeaderError(headerLabel, content, DuplicateEntry(PreviousScan(pool.scanStatus.value))))
         else Success((pool.(scanStatus := Some(scan)), None)))
    case "config" =>
      if content == [] then Success((pool, Some(BlankBeforeDevices)))
      else Failure(HeaderError(headerLabel, content, ExpectedEmpty))
    case "errors" =>
      if pool.error.Some? then
        Failure(HeaderError(headerLabel, content, DuplicateEntry(PreviousError(pool.error.value))))
      else Success((pool.(error := Some(ErrorStatusOf(content))), None))
    case "action" => Success((pool, None))
    case "see" => Success((pool, None))
    case _ => Failure(HeaderError(headerLabel, content, UnknownLabel))
  }
  /** The labels that carry no value: an unknown label is an error, `action` and
      `see` are ignored, and `config` must have empty content and starts the device
      table. */
  lemma AddLineHeaderLabels<T>(pool: PoolMetrics<T>, headerLabel: string, content: string, parseTs: string -> Option<T>)
    ensures var r := AddLineHeader(pool, headerLabel, content, parseTs);
      && (headerLabel !in HEADER_LABELS ==> r == Failure(HeaderError(headerLabel, content, UnknownLabel)))
      && (headerLabel == "action" || headerLabel == "see" ==> r == Success((pool, None)))
      && (headerLabel == "config" ==>
            && (r.Success? <==> content == [])
            && (r.Success? ==> r.value == (pool, Some(BlankBeforeDevices))))
  {
  }

  /** The labels that carry a value: each may be given once, and fills in its field
      of the record with the value classified from the content. */
  lemma AddLineHeaderValues<T>(pool: PoolMetrics<T>, headerLabel: string, content: string, parseTs: string -> Option<T>)
    ensures var r := AddLineHeader(pool, headerLabel, content, parseTs);
      && (headerLabel == "state" ==>
            && (r.Success? <==> pool.state.None?)
            && (r.Success? ==> r.value.0 == pool.(state := Some(DeviceStatusOf(content)))))
      && (headerLabel == "status" ==>
            && (r.Success? <==> pool.poolStatus.None?)
            && (r.Success? ==> r.value.0 == pool.(poolStatus := Some(PoolStatusOf(content)))))
      && (headerLabel == "errors" ==>
            && (r.Success? <==> pool.error.None?)
            && (r.Success? ==> r.value.0 == pool.(error := Some(ErrorStatusOf(content)))))
      && (headerLabel == "scan" ==>
            && (r.Success? <==> pool.scanStatus.None? && ParseScanContent(content, parseTs).Success?)
            && (r.Success? ==> r.value.0 == pool.(scanStatus := Some(ParseScanContent(content, parseTs).value)))
            && (ParseScanContent(content, parseTs).Failure? ==>
                  r.error.kind == ScanContent(ParseScanContent(content, parseTs).error)))
  {
  }


  /** A metric's header line given a second time is rejected, naming the first value. */
  lemma HeaderGivenTwice<T>(pool: PoolMetrics<T>, headerLabel: string, first: string, second: string,
                            parseTs: string -> Option<T>)
    requires headerLabel in {"status", "state", "scan", "errors"}
    requires headerLabel == "scan" ==> ParseScanContent(second, parseTs).Success?
    requires AddLineHeader(pool, headerLabel, first, parseTs).Success?
    ensures var p := AddLineHeader(pool, headerLabel, first, parseTs).value.0;
      var r := AddLineHeader(p, headerLabel, second, parseTs);
      r.Failure? && r.error.kind.DuplicateEntry?
  {
  }

  // ================================================================ the whole output

  datatype ErrorKind<T> =
    | MetricsLineHeader(header: HeaderError<T>)
    /** `ErrorKind::DeviceMetrics`: a device row that does not parse. */
    | DeviceLine(device: DeviceError)
    | HeaderBeforePool(headerLabel: string)
    | NeedsZfsDeviceMounts
    | UnknownHeader
    | InvalidDeviceTableLabels
    | MissingDeviceTableLabels
    | MissingBlankForDevices

  /** A rejected output: the offending line as printed (before any continuation lines
      were joined to it) and its 1-based number. */
  datatype ParseError<T> = ParseError(line: string, lineNumber: nat, kind: ErrorKind<T>)

  /** A continuation line without its leading tab, as `strip_prefix('\t')` leaves it. */
  function Untab(s: string): string {
    if StartsWith(s, "\t") then s[1..] else s
  }

  /** Lines `j` up to (not including) `n`, each without its leading tab. */
  function Continuations(lines: seq<string>, j: nat, n: nat): seq<string>
    requires j <= n <= |lines|
  {
    seq(n - j, k requires 0 <= k < n - j => Untab(lines[j + k]))
  }

  /** A header line followed by its continuation lines, those starting with a tab:
      each is appended after a line feed with its tab dropped. Returns the joined text
      and the index of the first line not consumed. */
  function Gather(line: string, lines: seq<string>, j: nat): (r: (string, nat))
    requires j <= |lines|
    ensures j <= r.1 <= |lines|
    ensures forall k :: j <= k < r.1 ==> StartsWith(lines[k], "\t")
    ensures r.1 < |lines| ==> !StartsWith(lines[r.1], "\t")
    ensures r.0 == Join([line] + Continuations(lines, j, r.1), "\n")
    decreases |lines| - j
  {
    if j < |lines| && StartsWith(lines[j], "\t") then
      var r := Gather(line + "\n" + Untab(lines[j]), lines, j + 1);
      JoinMerge(line, Untab(lines[j]), Continuations(lines, j + 1, r.1), "\n");
      assert [line] + Continuations(lines, j, r.1)
          == [line, Untab(lines[j])] + Continuations(lines, j + 1, r.1);
      r
    else
      assert [line] + Continuations(lines, j, j) == [line];
      (line, j)
  }

  /** Records are only ever appended; every record keeps its name, and all but the
      last of the old ones are left exactly as they were. */
  ghost predicate PoolsExtend<T>(before: seq<PoolMetrics<T>>, after: seq<PoolMetrics<T>>) {
    && |before| <= |after|
    && (forall k :: 0 <= k < |before| ==> after[k].name == before[k].name)
    && (forall k :: 0 <= k < |before| - 1 ==> after[k] == before[k])
  }

  /** A pool's name comes trimmed from its `pool:` line, and device names are
      whitespace-free cells. */
  predicate PoolWellFormed<T>(p: PoolMetrics<T>) {
    && Trimmed(p.name)
    && forall d :: 0 <= d < |p.devices| ==> IsCell(p.devices[d].name)
  }

  predicate WellFormed<T>(pools: seq<PoolMetrics<T>>) {
    forall k :: 0 <= k < |pools| ==> PoolWellFormed(pools[k])
  }

  /** Replacing the last record by one that refines it, or appending a fresh record. */
  lemma ReplaceLast<T>(pools: seq<PoolMetrics<T>>, p: PoolMetrics<T>)
    requires |pools| > 0 && WellFormed(pools) && PoolWellFormed(p)
    requires p.name == pools[|pools| - 1].name
    ensures PoolsExtend(pools, pools[|pools| - 1 := p]) && WellFormed(pools[|pools| - 1 := p])
  {
  }

  /** The marker `zpool status` prints when there is nothing to report. */
  const NO_POOLS_AVAILABLE: string := "no pools available"

  /** The start of the message `zpool` prints when it cannot reach the ZFS devices. */
  const NEEDS_DEVICE_MOUNTS: string := "/dev/zfs and /proc/self/mounts"

  /** `add_line_header` on the last record, as the loop uses it: its error is the
      line's error; on success the last record is replaced by the updated one and the
      loop goes on in the section it announces, or stays in the header. */
  ghost predicate AppliedToLast<T>(pools: seq<PoolMetrics<T>>, headerLabel: string, content: string,
                             parseTs: string -> Option<T>, r: Result<(seq<PoolMetrics<T>>, Section), ErrorKind<T>>)
    requires |pools| > 0
  {
    var a := AddLineHeader(pools[|pools| - 1], headerLabel, content, parseTs);
    if a.Failure? then r == Failure(MetricsLineHeader(a.error))
    else r == Success((pools[|pools| - 1 := a.value.0], if a.value.1.Some? then a.value.1.value else Header))
  }

  /** A labelled header line other than `pool:`, applied to the last record. */
  function LabelStep<T>(headerLabel: string, content: string, pools: seq<PoolMetrics<T>>,
                        parseTs: string -> Option<T>)
    : (r: Result<(seq<PoolMetrics<T>>, Section), ErrorKind<T>>)
    requires |pools| > 0 && WellFormed(pools)
    ensures AppliedToLast(pools, headerLabel, content, parseTs, r)
    ensures r.Success? ==> |r.value.0| == |pools| && PoolsExtend(pools, r.value.0) && WellFormed(r.value.0)
    ensures r.Success? && r.value.1 != Header ==> r.value.1 == BlankBeforeDevices
  {
    var a := AddLineHeader(pools[|pools| - 1], headerLabel, content, parseTs);
    if a.Failure? then Failure(MetricsLineHeader(a.error))
    else
      ReplaceLast(pools, a.value.0);
      Success((pools[|pools| - 1 := a.value.0], if a.value.1.Some? then a.value.1.value else Header))
  }

  /** A header line without a colon. */
  function PlainStep<T>(line: string, pools: seq<PoolMetrics<T>>): (r: Result<(seq<PoolMetrics<T>>, Section), ErrorKind<T>>)
    ensures r.Success? <==> AllWhitespace(line) || line == NO_POOLS_AVAILABLE
    ensures r.Success? ==> r.value == (pools, Header)
    ensures r.Failure? ==> r.error == if StartsWith(line, NEEDS_DEVICE_MOUNTS) then NeedsZfsDeviceMounts else UnknownHeader
  {
    if AllWhitespace(line) then Success((pools, Header))
    else if line == NO_POOLS_AVAILABLE then Success((pools, Header))
    else if StartsWith(line, NEEDS_DEVICE_MOUNTS) then Failure(NeedsZfsDeviceMounts)
    else Failure(UnknownHeader)
  }

  /** A header line (its continuations already joined): `pool:` starts a record, any
      other label goes to the last record, and a line without a colon must be blank or
      the no-pools marker. Returns the records and the next section. */
  function HeaderStep<T>(line: string, pools: seq<PoolMetrics<T>>, parseTs: string -> Option<T>)
    : (r: Result<(seq<PoolMetrics<T>>, Section), ErrorKind<T>>)
    requires WellFormed(pools)
    ensures r.Success? ==> PoolsExtend(pools, r.value.0) && WellFormed(r.value.0)
    ensures r.Success? ==> |pools| <= |r.value.0| <= |pools| + 1
    ensures r.Success? && r.value.1 != Header ==> r.value.1 == BlankBeforeDevices && |r.value.0| > 0
    ensures ':' !in line ==> r == PlainStep(line, pools)
    ensures ':' in line ==>
      var (rawLabel, rawContent) := SplitOnceChar(line, ':').value;
      && (Trim(rawLabel) == "pool" ==> r == Success((pools + [NewPool(Trim(rawContent))], Header)))
      && (Trim(rawLabel) != "pool" && pools == [] ==> r == Failure(HeaderBeforePool(Trim(rawLabel))))
      && (Trim(rawLabel) != "pool" && pools != [] ==> AppliedToLast(pools, Trim(rawLabel), Trim(rawContent), parseTs, r))
  {
    match SplitOnceChar(line, ':')
    case Some((rawLabel, rawContent)) =>
      var headerLabel := Trim(rawLabel);
      var content := Trim(rawContent);
      if headerLabel == "pool" then
        var p: PoolMetrics<T> := NewPool(content);
        assert PoolWellFormed(p);
        Success((pools + [p], Header))
      else if |pools| == 0 then Failure(HeaderBeforePool(headerLabel))
      else LabelStep(headerLabel, content, pools, parseTs)
    case None => PlainStep(line, pools)
  }

  /** The header of the device table that follows the blank line after `config:`. */
  const TABLE_LABELS: string := "\tNAME "

  /** The last record with one more device row. */
  function AppendDevice<T>(pools: seq<PoolMetrics<T>>, d: DeviceMetrics): (r: seq<PoolMetrics<T>>)
    requires |pools| > 0
    ensures |r| == |pools| && r[..|r| - 1] == pools[..|pools| - 1]
    ensures var last := pools[|pools| - 1];
      r[|r| - 1] == last.(devices := last.devices + [d])
    ensures WellFormed(pools) && IsCell(d.name) ==> WellFormed(r) && PoolsExtend(pools, r)
  {
    var last := pools[|pools| - 1];
    pools[|pools| - 1 := last.(devices := last.devices + [d])]
  }

  /** What one turn of the parser's loop does: go on from line `next` in `section`
      with `pools`, or reject the line it started at. */
  datatype Step<T> =
    | Next(next: nat, section: Section, pools: seq<PoolMetrics<T>>)
    | Reject(kind: ErrorKind<T>)

  /** The conditions every turn of the loop keeps: progress, records only extended,
      and a table section only once a record exists. */
  ghost predicate StepKeeps<T>(lines: seq<string>, i: nat, pools: seq<PoolMetrics<T>>, s: Step<T>) {
    s.Next? ==>
      && i < s.next <= |lines|
      && PoolsExtend(pools, s.pools)
      && WellFormed(s.pools)
      && (s.section != Header ==> |s.pools| > 0)
  }

  /** Header section: the line and its continuations form one header line. */
  function HeaderTurn<T>(lines: seq<string>, i: nat, pools: seq<PoolMetrics<T>>, parseTs: string -> Option<T>)
    : (r: Step<T>)
    requires i < |lines| && WellFormed(pools)
    ensures StepKeeps(lines, i, pools, r)
    ensures var g := Gather(lines[i], lines, i + 1);
      && (r.Next? <==> HeaderStep(g.0, pools, parseTs).Success?)
      && (r.Next? ==> r.next == g.1 && (r.pools, r.section) == HeaderStep(g.0, pools, parseTs).value)
      && (r.Reject? ==> r.kind == HeaderStep(g.0, pools, parseTs).error)
  {
    var (joined, next) := Gather(lines[i], lines, i + 1);
    match HeaderStep(joined, pools, parseTs)
    case Failure(kind) => Reject(kind)
    case Success((pools', section')) => Next(next, section', pools')
  }

  /** After `config:`: a blank line, then the table's column labels, both consumed. */
  function BlankTurn<T>(lines: seq<string>, i: nat, pools: seq<PoolMetrics<T>>): (r: Step<T>)
    requires i < |lines| && |pools| > 0 && WellFormed(pools)
    ensures StepKeeps(lines, i, pools, r)
    ensures r.Next? <==> AllWhitespace(lines[i]) && i + 1 < |lines| && StartsWith(lines[i + 1], TABLE_LABELS)
    ensures r.Next? ==> r == Next(i + 2, Devices, pools)
    ensures !AllWhitespace(lines[i]) ==> r == Reject(MissingBlankForDevices)
    ensures AllWhitespace(lines[i]) && i + 1 == |lines| ==> r == Reject(MissingDeviceTableLabels)
    ensures AllWhitespace(lines[i]) && i + 1 < |lines| && !StartsWith(lines[i + 1], TABLE_LABELS) ==>
      r == Reject(InvalidDeviceTableLabels)
  {
    if !AllWhitespace(lines[i]) then Reject(MissingBlankForDevices)
    else if i + 1 == |lines| then Reject(MissingDeviceTableLabels)
    else if !StartsWith(lines[i + 1], TABLE_LABELS) then Reject(InvalidDeviceTableLabels)
    else Next(i + 2, Devices, pools)
  }

  /** Inside the device table: a tab-indented, non-blank line is a device of the last
      record; any other line ends the table and is itself skipped. */
  function DeviceTurn<T>(lines: seq<string>, i: nat, pools: seq<PoolMetrics<T>>): (r: Step<T>)
    requires i < |lines| && |pools| > 0 && WellFormed(pools)
    ensures StepKeeps(lines, i, pools, r)
    ensures r.Next? ==> r.next == i + 1
    ensures !StartsWith(lines[i], "\t") || AllWhitespace(lines[i]) ==> r == Next(i + 1, Header, pools)
    ensures r.Next? && r.section == Devices ==>
      DeviceFromStr(lines[i]).Success? && r.pools == AppendDevice(pools, DeviceFromStr(lines[i]).value)
    ensures r.Reject? ==> r.kind.DeviceLine? && DeviceFromStr(lines[i]) == Failure(r.kind.device)
    ensures StartsWith(lines[i], "\t") && !AllWhitespace(lines[i]) ==>
      r == match DeviceFromStr(lines[i])
           case Failure(e) => Reject(DeviceLine(e))
           case Success(d) => Next(i + 1, Devices, AppendDevice(pools, d))
  {
    var line := lines[i];
    if !StartsWith(line, "\t") || AllWhitespace(line) then Next(i + 1, Header, pools)
    else
      match DeviceFromStr(line)
      case Failure(e) => Reject(DeviceLine(e))
      case Success(d) => Next(i + 1, Devices, AppendDevice(pools, d))
  }

  function Turn<T>(lines: seq<string>, i: nat, section: Section, pools: seq<PoolMetrics<T>>,
                   parseTs: string -> Option<T>): (r: Step<T>)
    requires i < |lines| && WellFormed(pools)
    requires section != Header ==> |pools| > 0
    ensures StepKeeps(lines, i, pools, r)
  {
    match section
    case Header => HeaderTurn(lines, i, pools, parseTs)
    case BlankBeforeDevices => BlankTurn(lines, i, pools)
    case Devices => DeviceTurn(lines, i, pools)
  }

  /** The error names a line after line `i`, by its 1-based number and its text. */
  predicate ReportsLine<T>(lines: seq<string>, i: nat, e: ParseError<T>) {
    && i < e.lineNumber <= |lines|
    && e.line == lines[e.lineNumber - 1]
  }

  /** The parser's loop from line `i` on, in `section`, with the records so far. */
  function Run<T>(lines: seq<string>, i: nat, section: Section, pools: seq<PoolMetrics<T>>,
                  parseTs: string -> Option<T>)
    : (r: Result<seq<PoolMetrics<T>>, ParseError<T>>)
    requires i <= |lines|
    requires section != Header ==> |pools| > 0
    requires WellFormed(pools)
    ensures r.Success? ==> PoolsExtend(pools, r.value) && WellFormed(r.value)
    ensures r.Failure? ==> ReportsLine(lines, i, r.error)
    decreases |lines| - i
  {
    if i == |lines| then Success(pools)
    else
      match Turn(lines, i, section, pools, parseTs)
      case Reject(kind) => Failure(ParseError(lines[i], i + 1, kind))
      case Next(next, section', pools') =>
        Run(lines, next, section', pools', parseTs)
  }

  /** The records' names, in order. */
  function Names<T>(pools: seq<PoolMetrics<T>>): seq<string> {
    seq(|pools|, k requires 0 <= k < |pools| => pools[k].name)
  }

  lemma NamesAppend<T>(pools: seq<PoolMetrics<T>>, p: PoolMetrics<T>)
    ensures Names(pools + [p]) == Names(pools) + [p.name]
  {
  }

  lemma NamesSame<T>(a: seq<PoolMetrics<T>>, b: seq<PoolMetrics<T>>)
    requires |a| == |b| && forall k :: 0 <= k < |a| ==> a[k].name == b[k].name
    ensures Names(a) == Names(b)
  {
  }

  /** What one joined header line contributes to the walk below: the name of the pool
      it opens (none, unless it is a `pool:` line) and the section after it. */
  function HeaderWalk(joined: string): (seq<string>, Section) {
    match SplitOnceChar(joined, ':')
    case Some((rawLabel, rawContent)) =>
      if Trim(rawLabel) == "pool" then ([Trim(rawContent)], Header)
      else ([], if Trim(rawLabel) == "config" then BlankBeforeDevices else Header)
    case None => ([], Header)
  }

  /** The names of the pools the text lists, read without building any record: the
      trimmed content of every `pool:` header line, in order. The walk goes through
      the sections as a parse that succeeds does: a header line takes its continuation
      lines with it, `config:` leads to the blank line and the column labels (both
      skipped), and the table lasts while its lines are tab-indented and not blank. */
  function PoolLines(lines: seq<string>, i: nat, section: Section): seq<string>
    requires i <= |lines|
    decreases |lines| - i
  {
    if i == |lines| then []
    else match section
      case Header =>
        var (joined, next) := Gather(lines[i], lines, i + 1);
        var (found, section') := HeaderWalk(joined);
        found + PoolLines(lines, next, section')
      case BlankBeforeDevices =>
        if i + 1 < |lines| then PoolLines(lines, i + 2, Devices) else []
      case Devices =>
        PoolLines(lines, i + 1, if !StartsWith(lines[i], "\t") || AllWhitespace(lines[i]) then Header else Devices)
  }

  /** A header line that is accepted adds a record exactly when it is a `pool:` line,
      named by its trimmed content, and leaves the parser in the section the walk
      expects. */
  lemma HeaderStepNames<T>(line: string, pools: seq<PoolMetrics<T>>, parseTs: string -> Option<T>)
    requires WellFormed(pools)
    ensures var r := HeaderStep(line, pools, parseTs);
      r.Success? ==> Names(r.value.0) == Names(pools) + HeaderWalk(line).0 && r.value.1 == HeaderWalk(line).1
  {
    var r := HeaderStep(line, pools, parseTs);
    if ':' in line && r.Success? {
      var (rawLabel, rawContent) := SplitOnceChar(line, ':').value;
      if Trim(rawLabel) == "pool" {
        NamesAppend(pools, NewPool<T>(Trim(rawContent)));
      } else {
        var a := AddLineHeader(pools[|pools| - 1], Trim(rawLabel), Trim(rawContent), parseTs);
        NamesSame(pools, pools[|pools| - 1 := a.value.0]);
      }
    }
  }

  /** A header turn adds a record exactly for a `pool:` line, named by its trimmed
      content, and goes where the walk of `PoolLines` goes. */
  lemma HeaderTurnNames<T>(lines: seq<string>, i: nat, pools: seq<PoolMetrics<T>>, parseTs: string -> Option<T>)
    requires i < |lines| && WellFormed(pools)
    ensures var s := HeaderTurn(lines, i, pools, parseTs);
      s.Next? ==> Names(s.pools) + PoolLines(lines, s.next, s.section) == Names(pools) + PoolLines(lines, i, Header)
  {
    var g := Gather(lines[i], lines, i + 1);
    var w := HeaderWalk(g.0);
    assert PoolLines(lines, i, Header) == w.0 + PoolLines(lines, g.1, w.1);
    HeaderStepNames(g.0, pools, parseTs);
  }

  /** A table turn never adds or renames a record, and leaves the table where the walk
      of `PoolLines` does. */
  lemma DeviceTurnNames<T>(lines: seq<string>, i: nat, pools: seq<PoolMetrics<T>>)
    requires i < |lines| && |pools| > 0 && WellFormed(pools)
    ensures var s := DeviceTurn(lines, i, pools);
      s.Next? ==> Names(s.pools) + PoolLines(lines, s.next, s.section) == Names(pools) + PoolLines(lines, i, Devices)
  {
    var s := DeviceTurn(lines, i, pools);
    if s.Next? {
      var ends := !StartsWith(lines[i], "\t") || AllWhitespace(lines[i]);
      assert PoolLines(lines, i, Devices) == PoolLines(lines, i + 1, if ends then Header else Devices);
      assert s.next == i + 1 && s.section == (if ends then Header else Devices);
      NamesSame(pools, s.pools);
    }
  }

  /** One turn of the loop adds a record exactly for a `pool:` line, with its name, and
      goes where the walk of `PoolLines` goes. */
  lemma TurnPoolNames<T>(lines: seq<string>, i: nat, section: Section, pools: seq<PoolMetrics<T>>,
                         parseTs: string -> Option<T>)
    requires i < |lines| && WellFormed(pools)
    requires section != Header ==> |pools| > 0
    ensures var s := Turn(lines, i, section, pools, parseTs);
      s.Next? ==> Names(s.pools) + PoolLines(lines, s.next, s.section) == Names(pools) + PoolLines(lines, i, section)
  {
    match section
    case Header => HeaderTurnNames(lines, i, pools, parseTs);
    case BlankBeforeDevices =>
    case Devices => DeviceTurnNames(lines, i, pools);
  }

  /** A parse that succeeds holds one record per `pool:` line the walk meets, named by
      the line's trimmed content, in the order of those lines, after the records it
      started with. */
  lemma {:induction false} RunPoolNames<T>(lines: seq<string>, i: nat, section: Section, pools: seq<PoolMetrics<T>>,
                                           parseTs: string -> Option<T>)
    requires i <= |lines|
    requires section != Header ==> |pools| > 0
    requires WellFormed(pools)
    ensures var r := Run(lines, i, section, pools, parseTs);
      r.Success? ==> Names(r.value) == Names(pools) + PoolLines(lines, i, section)
    decreases |lines| - i
  {
    if i < |lines| {
      match Turn(lines, i, section, pools, parseTs)
      case Reject(_) =>
      case Next(next, section', pools') =>
        RunPoolNames(lines, next, section', pools', parseTs);
        TurnPoolNames(lines, i, section, pools, parseTs);
    }
  }

  /** `parse_zfs_metrics`: the records of every pool in the output, one per `pool:` line
      and in the order of those lines, or the first line that does not fit the layout. */
  function ParseZfsMetrics<T>(output: string, parseTs: string -> Option<T>)
    : (r: Result<seq<PoolMetrics<T>>, ParseError<T>>)
    ensures r.Success? ==> WellFormed(r.value)
    ensures r.Success? ==> Names(r.value) == PoolLines(Lines(output), 0, Header)
    ensures r.Failure? ==>
      && 1 <= r.error.lineNumber <= |Lines(output)|
      && r.error.line == Lines(output)[r.error.lineNumber - 1]
  {
    RunPoolNames<T>(Lines(output), 0, Header, [], parseTs);
    assert Names<T>([]) == [];
    Run(Lines(output), 0, Header, [], parseTs)
  }
}
