/** The first parser of `zpool status` text, kept inline in src/lib.rs (`mod zfs`).

    It knows fewer header labels than the parser in src/zfs.rs (no `status:`,
    `action:` or `see:`), a single device-table section entered on the column labels
    and left on a blank line, and keeps a device's state as its raw token and its
    depth as the raw count of indenting spaces. Classification is total, as in the
    later parser: an unknown message becomes `Unrecognized`, and only text that breaks
    the layout fails the parse, naming the offending line. */
module LegacyZfs {
  import opened Wrappers
  import opened RustStr
  import Zfs

  // ================================================================ values

  datatype PoolStatus =
    | Unrecognized
    | Offline
    | Removed
    | Faulted
    | Split
    | Unavail
    | Degraded
    | Online
  {
    /** The variant's name as `Debug` prints it. */
    function Name(): string {
      match this
      case Unrecognized => "Unrecognized"
      case Offline => "Offline"
      case Removed => "Removed"
      case Faulted => "Faulted"
      case Split => "Split"
      case Unavail => "Unavail"
      case Degraded => "Degraded"
      case Online => "Online"
    }
  }

  datatype ScanStatus =
    | Unrecognized
    | ScrubRepaired
  {
    function Name(): string {
      match this
      case Unrecognized => "Unrecognized"
      case ScrubRepaired => "ScrubRepaired"
    }
  }

  datatype ErrorStatus =
    | Unrecognized
    | Ok
  {
    function Name(): string {
      match this
      case Unrecognized => "Unrecognized"
      case Ok => "Ok"
    }
  }

  /** One row of the device table: `depth` counts indenting spaces (two per level),
      and `state` is the token exactly as printed. */
  datatype DeviceMetrics = DeviceMetrics(
    depth: nat,
    name: string,
    state: string,
    errorsRead: u32,
    errorsWrite: u32,
    errorsChecksum: u32)

  datatype PoolMetrics<T> = PoolMetrics(
    name: string,
    state: Option<PoolStatus>,
    scanStatus: Option<(ScanStatus, T)>,
    devices: seq<DeviceMetrics>,
    error: Option<ErrorStatus>)

  /** A fresh record for a `pool:` line. */
  function NewPool<T>(name: string): (p: PoolMetrics<T>)
    ensures p.name == name && p.devices == []
    ensures p.state.None? && p.scanStatus.None? && p.error.None?
  {
    PoolMetrics(name, None, None, [], None)
  }

  // ================================================================ classifiers

  /** The token `zpool status` prints for a recognised pool state. */
  function PoolStatusToken(s: PoolStatus): string
    requires s != PoolStatus.Unrecognized
  {
    match s
    case Offline => "OFFLINE"
    case Removed => "REMOVED"
    case Faulted => "FAULTED"
    case Split => "SPLIT"
    case Unavail => "UNAVAIL"
    case Degraded => "DEGRADED"
    case Online => "ONLINE"
  }

  const POOL_STATUS_TOKENS: set<string> :=
    {"OFFLINE", "REMOVED", "FAULTED", "SPLIT", "UNAVAIL", "DEGRADED", "ONLINE"}

  /** A state token, matched exactly; anything else is Unrecognized. */
  function PoolStatusOf(token: string): (r: PoolStatus)
    ensures r == PoolStatus.Unrecognized <==> token !in POOL_STATUS_TOKENS
    ensures r != PoolStatus.Unrecognized ==> token == PoolStatusToken(r)
  {
    match token
    case "OFFLINE" => Offline
    case "REMOVED" => Removed
    case "FAULTED" => Faulted
    case "SPLIT" => Split
    case "UNAVAIL" => Unavail
    case "DEGRADED" => Degraded
    case "ONLINE" => Online
    case _ => PoolStatus.Unrecognized
  }

  /** Every recognised state is read back from its own token. */
  lemma PoolStatusTokenRoundTrip(s: PoolStatus)
    requires s != PoolStatus.Unrecognized
    ensures PoolStatusOf(PoolStatusToken(s)) == s
  {
  }

  const SCRUB_REPAIRED: string := "scrub repaired"

  /** The scan message is recognised by its opening words alone. */
  function ScanStatusOf(message: string): (r: ScanStatus)
    ensures r == ScrubRepaired <==> StartsWith(message, SCRUB_REPAIRED)
  {
    if StartsWith(message, SCRUB_REPAIRED) then ScrubRepaired else ScanStatus.Unrecognized
  }

  /** Whatever numbers and words follow "scrub repaired", the status is the same. */
  lemma ScanStatusOfRepaired(rest: string)
    ensures ScanStatusOf(SCRUB_REPAIRED + rest) == ScrubRepaired
  {
    assert (SCRUB_REPAIRED + rest)[..|SCRUB_REPAIRED|] == SCRUB_REPAIRED;
  }

  const NO_KNOWN_DATA_ERRORS: string := "No known data errors"

  /** Only the exact all-clear sentence is Ok. */
  function ErrorStatusOf(text: string): (r: ErrorStatus)
    ensures r == Ok <==> text == NO_KNOWN_DATA_ERRORS
  {
    if text == NO_KNOWN_DATA_ERRORS then Ok else ErrorStatus.Unrecognized
  }

  // ================================================================ device rows

  /** A rejected device row. `MissingCell(n, _)` is a row that ends before cell `n`
      (0 = name, 1 = state, then the read, write and checksum counters); from cell 1 on
      the message names the device. */
  datatype DeviceError =
    | MalformedLine
    | MissingCell(index: nat, deviceName: Option<string>)
    | InvalidCount(cell: string)

  /** Counter cell `i` of a row with a name, parsed as a u32. */
  function Count(cells: seq<string>, i: nat): Result<u32, DeviceError>
    requires |cells| > 0
  {
    if i >= |cells| then Failure(MissingCell(i, Some(cells[0])))
    else match ParseU32(cells[i])
      case None => Failure(InvalidCount(cells[i]))
      case Some(v) => Success(v)
  }

  /** The cells of a row read in column order; cells past the fifth are ignored. */
  function DeviceFromCells(depth: nat, cells: seq<string>): (r: Result<DeviceMetrics, DeviceError>)
    ensures r.Success? <==> Zfs.RowCellsValid(cells)
    ensures r.Success? ==>
      && r.value.depth == depth
      && r.value.name == cells[0]
      && r.value.state == cells[1]
      && ParseU32(cells[2]) == Some(r.value.errorsRead)
      && ParseU32(cells[3]) == Some(r.value.errorsWrite)
      && ParseU32(cells[4]) == Some(r.value.errorsChecksum)
    ensures r.Failure? && r.error.MissingCell? ==>
      && r.error.index == |cells| < 5
      && r.error.deviceName == (if |cells| == 0 then None else Some(cells[0]))
      && forall j :: 2 <= j < |cells| ==> ParseU32(cells[j]).Some?
    ensures r.Failure? && r.error.InvalidCount? ==>
      exists i :: 2 <= i < |cells| && i < 5
        && r.error.cell == cells[i] && ParseU32(cells[i]).None?
        && forall j :: 2 <= j < i ==> ParseU32(cells[j]).Some?
    ensures r.Failure? ==> !r.error.MalformedLine?
  {
    if |cells| == 0 then Failure(MissingCell(0, None))
    else if |cells| == 1 then Failure(MissingCell(1, Some(cells[0])))
    else
      var read :- Count(cells, 2);
      var write :- Count(cells, 3);
      var checksum :- Count(cells, 4);
      Success(DeviceMetrics(depth, cells[0], cells[1], read, write, checksum))
  }

  /** A device-table row: nothing, a tab, spaces giving the depth, then cells
      separated by whitespace. */
  function DeviceFromStr(line: string): (r: Result<DeviceMetrics, DeviceError>)
    ensures r == Failure(MalformedLine) <==> line == [] || line[0] != '\t'
    ensures line != [] && line[0] == '\t' ==>
      r == DeviceFromCells(Zfs.LeadingSpaces(line[1..]), SplitWhitespace(line[1..]))
    ensures r.Success? ==> IsCell(r.value.name) && IsCell(r.value.state)
  {
    match SplitOnceChar(line, '\t')
    case None => Failure(MalformedLine)
    case Some((beforeTab, rest)) =>
      if beforeTab != [] then Failure(MalformedLine)
      else
        var depth := Zfs.LeadingSpaces(rest);
        assert line[1..] == rest;
        assert SplitWhitespace(rest[depth..]) == SplitWhitespace(rest) by {
          assert rest == rest[..depth] + rest[depth..];
          assert AllWhitespace(rest[..depth]);
          SplitWhitespaceLeading(rest[..depth], rest[depth..]);
        }
        DeviceFromCells(depth, SplitWhitespace(rest[depth..]))
  }

  /** The later parser accepts exactly the rows this one accepts, and reads the same
      row: the same name and counters, half the depth (it counts levels, not spaces)
      and the state classified from the token kept here. */
  lemma DeviceFromStrAgrees(line: string)
    ensures DeviceFromStr(line).Success? <==> Zfs.DeviceFromStr(line).Success?
    ensures DeviceFromStr(line).Success? ==>
      var d := DeviceFromStr(line).value;
      Zfs.DeviceFromStr(line).value
        == Zfs.DeviceMetrics(d.depth / Zfs.DEPTH_MULTIPLE, d.name, Zfs.DeviceStatusOf(d.state),
                             d.errorsRead, d.errorsWrite, d.errorsChecksum)
  {
  }

  /** A device row as `zpool status` lays it out: a tab, the indenting spaces, then
      the name, state and counters, and any note cells, one space apart. */
  function DeviceRow(d: DeviceMetrics, notes: seq<string>): string {
    "\t" + Zfs.Spaces(d.depth) + Join(RowCells(d) + notes, " ")
  }

  function RowCells(d: DeviceMetrics): seq<string> {
    [d.name, d.state, Decimal(d.errorsRead), Decimal(d.errorsWrite), Decimal(d.errorsChecksum)]
  }

  lemma RowCellsAreCells(d: DeviceMetrics, notes: seq<string>)
    requires IsCell(d.name) && IsCell(d.state) && AllCells(notes)
    ensures AllCells(RowCells(d) + notes)
  {
    Zfs.DigitsAreCell(Decimal(d.errorsRead));
    Zfs.DigitsAreCell(Decimal(d.errorsWrite));
    Zfs.DigitsAreCell(Decimal(d.errorsChecksum));
    var cells := RowCells(d) + notes;
    forall i | 0 <= i < |cells|
      ensures IsCell(cells[i])
    {
      if i >= 5 {
        assert cells[i] == notes[i - 5];
      }
    }
  }

  /** An indented row reads its depth from the count of spaces and its cells from
      the rest. */
  lemma IndentedRow(indent: nat, body: string)
    requires body != [] && body[0] != ' '
    ensures DeviceFromStr("\t" + Zfs.Spaces(indent) + body)
         == DeviceFromCells(indent, SplitWhitespace(body))
  {
    var sp := Zfs.Spaces(indent);
    var line := "\t" + sp + body;
    assert line == "\t" + (sp + body);
    assert line[1..] == sp + body;
    assert Zfs.LeadingSpaces(sp + body) == indent by {
      assert (sp + body)[indent] == body[0];
      assert forall i :: 0 <= i < indent ==> (sp + body)[i] == ' ';
    }
    assert AllWhitespace(sp);
    SplitWhitespaceLeading(sp, body);
  }

  lemma RowCellsRead(d: DeviceMetrics, notes: seq<string>)
    ensures DeviceFromCells(d.depth, RowCells(d) + notes) == Success(d)
  {
    var cells := RowCells(d) + notes;
    assert cells[0] == d.name && cells[1] == d.state;
    assert cells[2] == Decimal(d.errorsRead);
    assert cells[3] == Decimal(d.errorsWrite);
    assert cells[4] == Decimal(d.errorsChecksum);
    ParseU32Decimal(d.errorsRead);
    ParseU32Decimal(d.errorsWrite);
    ParseU32Decimal(d.errorsChecksum);
  }

  /** Printing a device as a row and parsing the row gives the device back, for every
      indentation and every u32 counter, whatever note cells follow. */
  lemma DeviceRowRoundTrip(d: DeviceMetrics, notes: seq<string>)
    requires IsCell(d.name) && IsCell(d.state) && AllCells(notes)
    ensures DeviceFromStr(DeviceRow(d, notes)) == Success(d)
  {
    var cells := RowCells(d) + notes;
    var body := Join(cells, " ");
    assert SplitWhitespace(body) == cells by {
      RowCellsAreCells(d, notes);
      SplitWhitespaceJoin(cells);
    }
    assert body != [] && body[0] != ' ' by {
      JoinEnds(cells, " ");
      assert body[0] == cells[0][0] == d.name[0];
      assert !IsWhitespace(d.name[0]);
    }
    IndentedRow(d.depth, body);
    RowCellsRead(d, notes);
  }

  // ================================================================ scan content

  const ON: string := " on "

  /** The content of a `scan:` header: the message before the first " on " is
      classified, and the text after it must parse as a timestamp. */
  function ParseScanContent<T>(content: string, parseTs: string -> Option<T>)
    : (r: Result<(ScanStatus, T), Zfs.ScanError>)
    ensures r == Failure(Zfs.MissingTimestampSeparator) <==> forall k: nat :: !MatchesAt(content, ON, k)
    ensures r.Failure? && r.error.ParseTimestamp? ==> parseTs(r.error.timestamp).None?
  {
    match SplitOnceStr(content, ON)
    case None => Failure(Zfs.MissingTimestampSeparator)
    case Some((message, timestamp)) =>
      match parseTs(timestamp)
      case None => Failure(Zfs.ParseTimestamp(timestamp))
      case Some(t) => Success((ScanStatusOf(message), t))
  }

  /** A message, " on ", and a timestamp: the message is classified and the timestamp
      parsed, provided " on " does not occur earlier. */
  lemma ScanContentOn<T>(message: string, ts: string, parseTs: string -> Option<T>)
    requires NoMatchBefore(message + ON + ts, ON, |message|)
    ensures ParseScanContent(message + ON + ts, parseTs) ==
      if parseTs(ts).Some? then Success((ScanStatusOf(message), parseTs(ts).value))
      else Failure(Zfs.ParseTimestamp(ts))
  {
    SplitOnceStrAt(message, ON, ts);
  }

  // ================================================================ header lines

  /** The value already recorded when a header line repeats. */
  datatype Previous<T> =
    | PreviousState(state: PoolStatus)
    | PreviousScan(scan: (ScanStatus, T))
    | PreviousError(error: ErrorStatus)

  datatype HeaderErrorKind<T> =
    | DuplicateEntry(previous: Previous<T>)
    | ScanContent(scanError: Zfs.ScanError)
    | ExpectedEmpty
    | UnknownLabel

  datatype HeaderError<T> = HeaderError(headerLabel: string, content: string, kind: HeaderErrorKind<T>)

  /** The only labels this parser accepts after `pool:`. */
  const HEADER_LABELS: set<string> := {"state", "scan", "config", "errors"}

  ghost predicate FillsIn<V>(before: Option<V>, after: Option<V>) {
    after == before || (before.None? && after.Some?)
  }

  /** `after` keeps the name and devices of `before` and never overwrites a field. */
  ghost predicate Refines<T>(before: PoolMetrics<T>, after: PoolMetrics<T>) {
    && after.name == before.name
    && after.devices == before.devices
    && FillsIn(before.state, after.state)
    && FillsIn(before.scanStatus, after.scanStatus)
    && FillsIn(before.error, after.error)
  }

  /** `parse_line_header`: one `label: content` line applied to the current pool. */
  function AddLineHeader<T>(pool: PoolMetrics<T>, headerLabel: string, content: string, parseTs: string -> Option<T>)
    : (r: Result<PoolMetrics<T>, HeaderError<T>>)
    ensures r.Failure? ==> r.error.headerLabel == headerLabel && r.error.content == content
    ensures r.Success? ==> Refines(pool, r.value) && headerLabel in HEADER_LABELS
  {
    match headerLabel
    case "state" =>
      if pool.state.Some? then
        Failure(HeaderError(headerLabel, content, DuplicateEntry(PreviousState(pool.state.value))))
      else Success(pool.(state := Some(PoolStatusOf(content))))
    case "scan" =>
      (match ParseScanContent(content, parseTs)
       case Failure(e) => Failure(HeaderError(headerLabel, content, ScanContent(e)))
       case Success(scan) =>
         if pool.scanStatus.Some? then
           Failure(HeaderError(headerLabel, content, DuplicateEntry(PreviousScan(pool.scanStatus.value))))
         else Success(pool.(scanStatus := Some(scan))))
    case "config" =>
      if content == [] then Success(pool)
      else Failure(HeaderError(headerLabel, content, ExpectedEmpty))
    case "errors" =>
      if pool.error.Some? then
        Failure(HeaderError(headerLabel, content, DuplicateEntry(PreviousError(pool.error.value))))
      else Success(pool.(error := Some(ErrorStatusOf(content))))
    case _ => Failure(HeaderError(headerLabel, content, UnknownLabel))
  }

  /** Each label's outcome: an unknown label is an error, `config` needs empty content
      and changes nothing, and a metric's label fills in its field once, failing when
      the field is already set (a scan only after its content has parsed). */
  lemma AddLineHeaderCases<T>(pool: PoolMetrics<T>, headerLabel: string, content: string, parseTs: string -> Option<T>)
    ensures var r := AddLineHeader(pool, headerLabel, content, parseTs);
      && (headerLabel !in HEADER_LABELS ==> r == Failure(HeaderError(headerLabel, content, UnknownLabel)))
      && (headerLabel == "config" ==> (r.Success? <==> content == []) && (r.Success? ==> r.value == pool))
      && (headerLabel == "state" ==>
            && (r.Success? <==> pool.state.None?)
            && (r.Success? ==> r.value == pool.(state := Some(PoolStatusOf(content)))))
      && (headerLabel == "errors" ==>
            && (r.Success? <==> pool.error.None?)
            && (r.Success? ==> r.value == pool.(error := Some(ErrorStatusOf(content)))))
      && (headerLabel == "scan" ==>
            && (r.Success? <==> pool.scanStatus.None? && ParseScanContent(content, parseTs).Success?)
            && (r.Success? ==> r.value == pool.(scanStatus := Some(ParseScanContent(content, parseTs).value)))
            && (ParseScanContent(content, parseTs).Failure? ==>
                  r.error.kind == ScanContent(ParseScanContent(content, parseTs).error)))
  {
  }

  // ================================================================ the whole output

  /** The loop's two sections: header lines, or rows of the device table. */
  datatype Section = Header | Devices

  datatype ErrorKind<T> =
    | LineHeader(header: HeaderError<T>)
    | HeaderBeforePool
    | UnknownHeaderLine
    | DeviceLine(device: DeviceError)
    | DeviceBeforePool

  /** A rejected output and the line that broke it. */
  datatype ParseError<T> = ParseError(line: string, kind: ErrorKind<T>)

  /** The line of column labels that opens the device table. */
  const TABLE_LABELS: string := "\tNAME "

  /** Records are only ever appended, and each keeps its name. */
  ghost predicate PoolsExtend<T>(before: seq<PoolMetrics<T>>, after: seq<PoolMetrics<T>>) {
    && |before| <= |after|
    && forall k :: 0 <= k < |before| ==> after[k].name == before[k].name
  }

  /** A pool's name comes trimmed from its `pool:` line, and a device's name and state
      are whitespace-free cells. */
  predicate PoolWellFormed<T>(p: PoolMetrics<T>) {
    && Trimmed(p.name)
    && forall d :: 0 <= d < |p.devices| ==> IsCell(p.devices[d].name) && IsCell(p.devices[d].state)
  }

  predicate WellFormed<T>(pools: seq<PoolMetrics<T>>) {
    forall k :: 0 <= k < |pools| ==> PoolWellFormed(pools[k])
  }

  lemma PushPool<T>(pools: seq<PoolMetrics<T>>, p: PoolMetrics<T>)
    requires WellFormed(pools) && PoolWellFormed(p)
    ensures PoolsExtend(pools, pools + [p]) && WellFormed(pools + [p])
  {
  }

  lemma ReplaceLast<T>(pools: seq<PoolMetrics<T>>, p: PoolMetrics<T>)
    requires |pools| > 0 && WellFormed(pools) && PoolWellFormed(p)
    requires p.name == pools[|pools| - 1].name
    ensures PoolsExtend(pools, pools[|pools| - 1 := p]) && WellFormed(pools[|pools| - 1 := p])
  {
  }

  /** One line of the header section. A line with a colon is a `label: content` pair
      (both trimmed): `pool` starts a record, any other label goes to the last one.
      Without a colon the line is the table's column labels, a blank, or an error. */
  function HeaderLine<T>(line: string, pools: seq<PoolMetrics<T>>, parseTs: string -> Option<T>)
    : (r: Result<(Section, seq<PoolMetrics<T>>), ErrorKind<T>>)
    requires WellFormed(pools)
    ensures r.Success? ==> PoolsExtend(pools, r.value.1) && WellFormed(r.value.1)
    ensures r.Success? && r.value.1 != pools ==> ':' in line
    ensures r.Success? && r.value.0 == Devices ==> ':' !in line && StartsWith(line, TABLE_LABELS)
    ensures r == Failure(HeaderBeforePool) <==> ':' in line && pools == [] && Trim(SplitOnceChar(line, ':').value.0) != "pool"
    ensures ':' in line ==>
      var headerLabel := Trim(SplitOnceChar(line, ':').value.0);
      var content := Trim(SplitOnceChar(line, ':').value.1);
      && (headerLabel == "pool" ==> r == Success((Header, pools + [NewPool(content)])))
      && (headerLabel != "pool" && pools != [] ==>
            var a := AddLineHeader(pools[|pools| - 1], headerLabel, content, parseTs);
            r == if a.Failure? then Failure(LineHeader(a.error)) else Success((Header, pools[|pools| - 1 := a.value])))
    ensures ':' !in line && StartsWith(line, TABLE_LABELS) ==> r == Success((Devices, pools))
    ensures ':' !in line && !StartsWith(line, TABLE_LABELS) ==>
      r == if AllWhitespace(line) then Success((Header, pools)) else Failure(UnknownHeaderLine)
  {
    match SplitOnceChar(line, ':')
    case Some((rawLabel, rawContent)) =>
      var headerLabel := Trim(rawLabel);
      var content := Trim(rawContent);
      if headerLabel == "pool" then
        var p: PoolMetrics<T> := NewPool(content);
        PushPool(pools, p);
        Success((Header, pools + [p]))
      else if pools == [] then Failure(HeaderBeforePool)
      else
        var a := AddLineHeader(pools[|pools| - 1], headerLabel, content, parseTs);
        if a.Failure? then Failure(LineHeader(a.error))
        else
          ReplaceLast(pools, a.value);
          Success((Header, pools[|pools| - 1 := a.value]))
    case None =>
      if StartsWith(line, TABLE_LABELS) then Success((Devices, pools))
      else if AllWhitespace(line) then Success((Header, pools))
      else Failure(UnknownHeaderLine)
  }

  /** The last record with one more device row; a well-formed row keeps the records
      well-formed. */
  function AppendDevice<T>(pools: seq<PoolMetrics<T>>, d: DeviceMetrics): (r: seq<PoolMetrics<T>>)
    requires |pools| > 0
    ensures |r| == |pools| && r[..|r| - 1] == pools[..|pools| - 1]
    ensures var last := pools[|pools| - 1];
      r[|r| - 1] == last.(devices := last.devices + [d])
    ensures WellFormed(pools) && IsCell(d.name) && IsCell(d.state) ==> WellFormed(r) && PoolsExtend(pools, r)
  {
    var last := pools[|pools| - 1];
    var p := last.(devices := last.devices + [d]);
    assert IsCell(d.name) && IsCell(d.state) && PoolWellFormed(last) ==> PoolWellFormed(p) by {
      if IsCell(d.name) && IsCell(d.state) && PoolWellFormed(last) {
        forall k | 0 <= k < |p.devices|
          ensures IsCell(p.devices[k].name) && IsCell(p.devices[k].state)
        {
          if k < |last.devices| {
            assert p.devices[k] == last.devices[k];
          }
        }
      }
    }
    pools[|pools| - 1 := p]
  }

  /** One line of the device table: a blank line ends the table, any other line is a
      device row of the last record. */
  function DeviceLineStep<T>(line: string, pools: seq<PoolMetrics<T>>)
    : (r: Result<(Section, seq<PoolMetrics<T>>), ErrorKind<T>>)
    requires WellFormed(pools)
    ensures AllWhitespace(line) ==> r == Success((Header, pools))
    ensures !AllWhitespace(line) && pools == [] ==> r == Failure(DeviceBeforePool)
    ensures !AllWhitespace(line) && pools != [] && DeviceFromStr(line).Failure? ==>
      r == Failure(DeviceLine(DeviceFromStr(line).error))
    ensures !AllWhitespace(line) && pools != [] && DeviceFromStr(line).Success? ==>
      r == Success((Devices, AppendDevice(pools, DeviceFromStr(line).value)))
    ensures r.Success? ==> PoolsExtend(pools, r.value.1) && WellFormed(r.value.1)
  {
    if AllWhitespace(line) then Success((Header, pools))
    else if pools == [] then Failure(DeviceBeforePool)
    else
      match DeviceFromStr(line)
      case Failure(e) => Failure(DeviceLine(e))
      case Success(d) => Success((Devices, AppendDevice(pools, d)))
  }

  function Step<T>(line: string, section: Section, pools: seq<PoolMetrics<T>>, parseTs: string -> Option<T>)
    : (r: Result<(Section, seq<PoolMetrics<T>>), ErrorKind<T>>)
    requires WellFormed(pools)
    ensures r.Success? ==> PoolsExtend(pools, r.value.1) && WellFormed(r.value.1)
  {
    match section
    case Header => HeaderLine(line, pools, parseTs)
    case Devices => DeviceLineStep(line, pools)
  }

  /** The loop over the lines from `section` with the records so far; on success, the
      section the last line left it in and the records. */
  function RunFrom<T>(lines: seq<string>, section: Section, pools: seq<PoolMetrics<T>>, parseTs: string -> Option<T>)
    : (r: Result<(Section, seq<PoolMetrics<T>>), ParseError<T>>)
    requires WellFormed(pools)
    ensures r.Success? ==> PoolsExtend(pools, r.value.1) && WellFormed(r.value.1)
    ensures r.Failure? ==> r.error.line in lines
    decreases |lines|
  {
    if lines == [] then Success((section, pools))
    else
      match Step(lines[0], section, pools, parseTs)
      case Failure(kind) => Failure(ParseError(lines[0], kind))
      case Success((section', pools')) =>
        var r := RunFrom(lines[1..], section', pools', parseTs);
        assert r.Failure? ==> r.error.line in lines by {
          if r.Failure? {
            assert r.error.line in lines[1..];
          }
        }
        r
  }

  /** The loop is a fold: running over two pieces of text one after the other is
      running over the first and going on from where it stopped. */
  lemma {:induction false} RunFromAppend<T>(a: seq<string>, b: seq<string>, section: Section,
                                            pools: seq<PoolMetrics<T>>, parseTs: string -> Option<T>)
    requires WellFormed(pools)
    ensures RunFrom(a + b, section, pools, parseTs) ==
      match RunFrom(a, section, pools, parseTs)
      case Failure(e) => Failure(e)
      case Success((section', pools')) => RunFrom(b, section', pools', parseTs)
    decreases |a|
  {
    if a == [] {
      assert a + b == b;
    } else {
      assert (a + b)[0] == a[0] && (a + b)[1..] == a[1..] + b;
      match Step(a[0], section, pools, parseTs)
      case Failure(_) =>
      case Success((section', pools')) =>
        RunFromAppend(a[1..], b, section', pools', parseTs);
    }
  }

  /** The records' names, in order. */
  function Names<T>(pools: seq<PoolMetrics<T>>): seq<string> {
    seq(|pools|, k requires 0 <= k < |pools| => pools[k].name)
  }

  lemma NamesAppend<T>(pools: seq<PoolMetrics<T>>, p: PoolMetrics<T>)
    ensures Names(pools + [p]) == Names(pools) + [p.name]
  {
  }

  lemma NamesSame<T>(a: seq<PoolMetrics<T>>, b: seq<PoolMetrics<T>>)
    requires |a| == |b| && forall k :: 0 <= k < |a| ==> a[k].name == b[k].name
    ensures Names(a) == Names(b)
  {
  }

  /** What one line contributes to the walk below: the name of the pool it opens (none,
      unless it is a `pool:` header line) and the section after it. */
  function LineWalk(line: string, section: Section): (seq<string>, Section) {
    match section
    case Header =>
      (match SplitOnceChar(line, ':')
       case Some((rawLabel, rawContent)) =>
         if Trim(rawLabel) == "pool" then ([Trim(rawContent)], Header) else ([], Header)
       case None => ([], if StartsWith(line, TABLE_LABELS) then Devices else Header))
    case Devices => ([], if AllWhitespace(line) then Header else Devices)
  }

  /** The names of the pools the text lists, read without building any record: the
      trimmed content of every `pool:` line met in the header part, in order. The walk
      enters the table at its column labels and leaves it at a blank line. */
  function PoolLines(lines: seq<string>, section: Section): seq<string>
    decreases |lines|
  {
    if lines == [] then []
    else
      var (found, section') := LineWalk(lines[0], section);
      found + PoolLines(lines[1..], section')
  }

  /** A line that is accepted adds a record exactly when it is a `pool:` header line,
      named by its trimmed content, and leaves the loop in the section the walk expects. */
  lemma StepNames<T>(line: string, section: Section, pools: seq<PoolMetrics<T>>, parseTs: string -> Option<T>)
    requires WellFormed(pools)
    ensures var r := Step(line, section, pools, parseTs);
      r.Success? ==> Names(r.value.1) == Names(pools) + LineWalk(line, section).0 && r.value.0 == LineWalk(line, section).1
  {
    var r := Step(line, section, pools, parseTs);
    if r.Success? {
      match section
      case Header =>
        if ':' in line {
          var (rawLabel, rawContent) := SplitOnceChar(line, ':').value;
          if Trim(rawLabel) == "pool" {
            NamesAppend(pools, NewPool<T>(Trim(rawContent)));
          } else {
            NamesSame(pools, r.value.1);
          }
        }
      case Devices =>
        NamesSame(pools, r.value.1);
    }
  }

  /** A run over some lines is a step on the first and a run over the rest. */
  lemma RunFromCons<T>(lines: seq<string>, section: Section, pools: seq<PoolMetrics<T>>, parseTs: string -> Option<T>)
    requires lines != [] && WellFormed(pools)
    ensures var s := Step(lines[0], section, pools, parseTs);
      s.Success? ==> RunFrom(lines, section, pools, parseTs) == RunFrom(lines[1..], s.value.0, s.value.1, parseTs)
  {
  }

  /** A run that succeeds holds one record per `pool:` line the walk meets, named by the
      line's trimmed content, in the order of those lines, after the records it started
      with; and it stops in the section the walk ends in. */
  lemma {:induction false} RunFromNames<T>(lines: seq<string>, section: Section, pools: seq<PoolMetrics<T>>,
                                           parseTs: string -> Option<T>)
    requires WellFormed(pools)
    ensures var r := RunFrom(lines, section, pools, parseTs);
      r.Success? ==> Names(r.value.1) == Names(pools) + PoolLines(lines, section)
    decreases |lines|
  {
    if lines != [] {
      var w := LineWalk(lines[0], section);
      var s := Step(lines[0], section, pools, parseTs);
      if s.Success? {
        StepNames(lines[0], section, pools, parseTs);
        RunFromCons(lines, section, pools, parseTs);
        RunFromNames(lines[1..], s.value.0, s.value.1, parseTs);
        assert PoolLines(lines, section) == w.0 + PoolLines(lines[1..], w.1);
      }
    }
  }

  /** `get_zfs_metrics` after the command has run: the records of every pool in its
      output, one per `pool:` line and in the order of those lines, or the first line
      that does not fit. */
  function ParseZfsMetrics<T>(output: string, parseTs: string -> Option<T>)
    : (r: Result<seq<PoolMetrics<T>>, ParseError<T>>)
    ensures r.Success? ==> WellFormed(r.value)
    ensures r.Success? ==> Names(r.value) == PoolLines(Lines(output), Header)
    ensures r.Failure? ==> r.error.line in Lines(output)
  {
    RunFromNames<T>(Lines(output), Header, [], parseTs);
    assert Names<T>([]) == [];
    match RunFrom(Lines(output), Header, [], parseTs)
    case Failure(e) => Failure(e)
    case Success((_, pools)) => Success(pools)
  }
}
