// The boot mode of the host: one member fed by two D-Bus properties, its own and the boot source.
module HostBoot {
  import opened Options
  import opened Entities
  import P = Properties

  /** The first two come from the mode property, the next four from the source property. */
  datatype Mode = Diags | BiosSetup | Hdd | Cd | Pxe | Usb | NoMode

  /** The numbers by which modes compare. */
  function Rank(m: Mode): nat {
    match m
    case Diags => 0
    case BiosSetup => 1
    case Hdd => 2
    case Cd => 3
    case Pxe => 4
    case Usb => 5
    case NoMode => 6
  }

  const DBUS_ORIGIN_MODE_MAX := BiosSetup

  const MODES := "xyz.openbmc_project.Control.Boot.Mode.Modes."

  const SOURCES := "xyz.openbmc_project.Control.Boot.Source.Sources."

  const MODE_OF_NAME: map<string, Mode> := map[MODES + "Safe" := Diags, MODES + "Setup" := BiosSetup, MODES + "Regular" := NoMode]

  const MODE_OF_SOURCE: map<string, Mode> := map[
    SOURCES + "Disk" := Hdd,
    SOURCES + "ExternalMedia" := Cd,
    SOURCES + "Network" := Pxe,
    SOURCES + "RemovableMedia" := Usb,
    SOURCES + "Default" := NoMode]

  function FormatMode(value: string): (m: Mode)
    ensures m == Diags || m == BiosSetup || m == NoMode
  {
    if value in MODE_OF_NAME then MODE_OF_NAME[value] else NoMode
  }

  /** The mode of a source that is recognised. */
  function SourceMode(source: string): Option<Mode> {
    if source in MODE_OF_SOURCE then Some(MODE_OF_SOURCE[source]) else None
  }

  /** What one signal or reply says of the two properties. */
  datatype Report = Report(mode: Option<string>, source: Option<string>)

  datatype Boot = Boot(mode: Mode, source: string)

  /** Fields that were never set read as these. */
  const UNSET := Boot(NoMode, "N/A")

  function Derived(b: Boot): Boot {
    if SourceMode(b.source).Some? && Rank(b.mode) > Rank(DBUS_ORIGIN_MODE_MAX)
    then b.(mode := SourceMode(b.source).value) else b
  }

  function Next(b: Boot, r: Report): Boot {
    var m := if r.mode.Some? then FormatMode(r.mode.value) else b.mode;
    var s := if r.source.Some? then r.source.value else b.source;
    Derived(Boot(m, s))
  }

  function After(reports: seq<Report>): Boot {
    if reports == [] then UNSET else Next(After(reports[..|reports| - 1]), reports[|reports| - 1])
  }

  class HostBootInstance {
    var fieldMode: Option<Mode>
    var fieldSource: Option<string>

    constructor ()
      ensures fieldMode == None && fieldSource == None && Contents() == UNSET
    {
      fieldMode, fieldSource := None, None;
    }

    function Contents(): Boot
      reads this
    {
      Boot(if fieldMode.Some? then fieldMode.value else UNSET.mode,
           if fieldSource.Some? then fieldSource.value else UNSET.source)
    }

    /** The pass that follows each filling: it writes the mode back even where it leaves it alone. */
    method FormatSource()
      modifies this`fieldMode
      ensures Contents() == Derived(old(Contents())) && fieldMode.Some?
    {
      var mode := if fieldMode.Some? then fieldMode.value else NoMode;
      var search := SourceMode(Contents().source);
      if search.Some? && Rank(mode) > Rank(DBUS_ORIGIN_MODE_MAX) {
        mode := search.value;
      }
      fieldMode := Some(mode);
    }

    method OnReport(r: Report)
      modifies this
      ensures Contents() == Next(old(Contents()), r) && fieldMode.Some?
    {
      if r.mode.Some? {
        fieldMode := Some(FormatMode(r.mode.value));
      }
      if r.source.Some? {
        fieldSource := r.source;
      }
      FormatSource();
    }
  }

  // ---------------------------------------------------------------------------------------------
  // The mode after a run of reports.

  /** The source held after the first n reports. */
  function Held(reports: seq<Report>, n: nat): string
    requires n <= |reports|
    decreases n
  {
    if n == 0 then UNSET.source
    else if reports[n - 1].source.Some? then reports[n - 1].source.value
    else Held(reports, n - 1)
  }

  /** The mode that the mode property itself had last, and after how many reports. */
  function OwnMode(reports: seq<Report>, n: nat): (m: Mode)
    requires n <= |reports|
    ensures m == Diags || m == BiosSetup || m == NoMode
    decreases n
  {
    if n == 0 then NoMode
    else if reports[n - 1].mode.Some? then FormatMode(reports[n - 1].mode.value)
    else OwnMode(reports, n - 1)
  }

  function LastOwn(reports: seq<Report>, n: nat): (k: nat)
    requires n <= |reports|
    ensures k <= n
    decreases n
  {
    if n == 0 || reports[n - 1].mode.Some? then n else LastOwn(reports, n - 1)
  }

  predicate Recognised(reports: seq<Report>, n: nat)
    requires n <= |reports|
  {
    SourceMode(Held(reports, n)).Some?
  }

  /** After `j` reports a recognised source was held, and none since. */
  predicate Decides(reports: seq<Report>, j: nat, n: nat)
    requires n <= |reports|
  {
    LastOwn(reports, n) <= j <= n && Recognised(reports, j) && forall i | j < i <= n :: !Recognised(reports, i)
  }

  lemma {:induction false} AfterPrefix(reports: seq<Report>, n: nat)
    requires 0 < n <= |reports|
    ensures After(reports[..n]) == Next(After(reports[..n - 1]), reports[n - 1])
  {
    assert reports[..n][..n - 1] == reports[..n - 1];
  }

  lemma {:induction false} SourceIsHeld(reports: seq<Report>, n: nat)
    requires n <= |reports|
    ensures After(reports[..n]).source == Held(reports, n)
    decreases n
  {
    if n > 0 {
      SourceIsHeld(reports, n - 1);
      AfterPrefix(reports, n);
    }
  }

  /** A report as the derivation sees it: the mode it starts from, and the mode of the source. */
  function Chosen(mode: Mode, source: Option<Mode>): Mode {
    if source.Some? && Rank(mode) > Rank(DBUS_ORIGIN_MODE_MAX) then source.value else mode
  }

  lemma ModeStep(reports: seq<Report>, n: nat)
    requires 0 < n <= |reports|
    ensures After(reports[..n]).mode ==
            Chosen(if reports[n - 1].mode.Some? then OwnMode(reports, n) else After(reports[..n - 1]).mode,
                   SourceMode(Held(reports, n)))
  {
    AfterPrefix(reports, n);
    SourceIsHeld(reports, n);
  }

  /** Its own value decides the mode if that is one of the first two. */
  lemma {:induction false} OwnModeWins(reports: seq<Report>, n: nat)
    requires n <= |reports| && OwnMode(reports, n) != NoMode
    ensures After(reports[..n]).mode == OwnMode(reports, n)
    decreases n
  {
    if n > 0 {
      ModeStep(reports, n);
      if reports[n - 1].mode.None? {
        OwnModeWins(reports, n - 1);
      }
    }
  }

  /** Otherwise the mode is never one of the first two. */
  lemma {:induction false} NeverOwn(reports: seq<Report>, n: nat)
    requires n <= |reports| && OwnMode(reports, n) == NoMode
    ensures Rank(After(reports[..n]).mode) > Rank(DBUS_ORIGIN_MODE_MAX)
    decreases n
  {
    if n > 0 {
      ModeStep(reports, n);
      if reports[n - 1].mode.None? {
        NeverOwn(reports, n - 1);
      }
      SourceModeRank(Held(reports, n));
    }
  }

  lemma SourceModeRank(source: string)
    ensures SourceMode(source).Some? ==> Rank(SourceMode(source).value) > Rank(DBUS_ORIGIN_MODE_MAX)
  {
  }

  lemma DecidedBefore(reports: seq<Report>, j: nat, n: nat)
    requires n <= |reports| && Decides(reports, j, n) && j < n && OwnMode(reports, n) == NoMode
    ensures reports[n - 1].mode.None? && SourceMode(Held(reports, n)).None?
    ensures Decides(reports, j, n - 1) && OwnMode(reports, n - 1) == NoMode
  {
    assert !Recognised(reports, n);
  }

  /** And it is that of the source that was recognised last since the own value was reported. */
  lemma {:induction false} LastRecognisedSourceWins(reports: seq<Report>, n: nat, j: nat)
    requires n <= |reports| && OwnMode(reports, n) == NoMode && Decides(reports, j, n)
    ensures After(reports[..n]).mode == SourceMode(Held(reports, j)).value
    decreases n
  {
    assert n > 0;
    ModeStep(reports, n);
    if j == n {
      if reports[n - 1].mode.None? {
        NeverOwn(reports, n - 1);
      }
    } else {
      DecidedBefore(reports, j, n);
      LastRecognisedSourceWins(reports, n - 1, j);
    }
  }

  /** If none was, there is no mode. */
  lemma {:induction false} NoSourceNoMode(reports: seq<Report>, n: nat)
    requires n <= |reports| && OwnMode(reports, n) == NoMode
    requires forall j | LastOwn(reports, n) <= j <= n :: !Recognised(reports, j)
    ensures After(reports[..n]).mode == NoMode
    decreases n
  {
    if n > 0 {
      ModeStep(reports, n);
      assert !Recognised(reports, n);
      if reports[n - 1].mode.None? {
        NoSourceNoMode(reports, n - 1);
      }
    }
  }

  // ---------------------------------------------------------------------------------------------
  // Against a fresh read.

  /** The mode of an object that is read when the bus holds the last reported values. */
  function FreshMode(reports: seq<Report>): Mode {
    Chosen(OwnMode(reports, |reports|), SourceMode(Held(reports, |reports|)))
  }

  /** A mode is left over from a source that has since been replaced by one that is not recognised. */
  ghost predicate Stale(reports: seq<Report>) {
    && OwnMode(reports, |reports|) == NoMode
    && exists j: nat :: j < |reports| && Decides(reports, j, |reports|) && SourceMode(Held(reports, j)) != Some(NoMode)
  }

  lemma DeciderExists(reports: seq<Report>, n: nat, j: nat) returns (d: nat)
    requires n <= |reports| && LastOwn(reports, n) <= j <= n && Recognised(reports, j)
    ensures Decides(reports, d, n)
  {
    d := n;
    while !Recognised(reports, d)
      invariant j <= d <= n && forall i | d < i <= n :: !Recognised(reports, i)
      decreases d
    {
      d := d - 1;
    }
  }

  lemma DeciderIsUnique(reports: seq<Report>, n: nat, i: nat, j: nat)
    requires n <= |reports| && Decides(reports, i, n) && Decides(reports, j, n)
    ensures i == j
  {
  }

  lemma IncrementalIsFreshIff(reports: seq<Report>)
    ensures After(reports).mode == FreshMode(reports) <==> !Stale(reports)
  {
    var n := |reports|;
    assert reports[..n] == reports;
    if OwnMode(reports, n) != NoMode {
      OwnModeWins(reports, n);
    } else if j :| LastOwn(reports, n) <= j <= n && Recognised(reports, j) {
      var d := DeciderExists(reports, n, j);
      LastRecognisedSourceWins(reports, n, d);
      StaleIff(reports, d);
      FreshIff(reports, d);
    } else {
      NoSourceNoMode(reports, n);
      assert !Recognised(reports, n);
    }
  }

  lemma FreshIff(reports: seq<Report>, d: nat)
    requires OwnMode(reports, |reports|) == NoMode && Decides(reports, d, |reports|)
    ensures SourceMode(Held(reports, d)).Some?
    ensures FreshMode(reports) == SourceMode(Held(reports, d)).value <==>
            d == |reports| || SourceMode(Held(reports, d)) == Some(NoMode)
  {
    if d < |reports| {
      assert !Recognised(reports, |reports|);
    }
  }

  lemma StaleIff(reports: seq<Report>, d: nat)
    requires OwnMode(reports, |reports|) == NoMode && Decides(reports, d, |reports|)
    ensures Stale(reports) <==> d < |reports| && SourceMode(Held(reports, d)) != Some(NoMode)
  {
    if Stale(reports) {
      var j: nat :| j < |reports| && Decides(reports, j, |reports|) && SourceMode(Held(reports, j)) != Some(NoMode);
      DeciderIsUnique(reports, |reports|, d, j);
    }
  }

  /** When every reported source is recognised, the two agree. */
  lemma RecognisedSourcesAreFresh(reports: seq<Report>)
    requires forall i | 0 <= i < |reports| && reports[i].source.Some? :: SourceMode(reports[i].source.value).Some?
    ensures After(reports).mode == FreshMode(reports)
  {
    if Stale(reports) {
      var j: nat :| j < |reports| && Decides(reports, j, |reports|) && SourceMode(Held(reports, j)) != Some(NoMode);
      RecognisedStays(reports, j, |reports|);
    }
    IncrementalIsFreshIff(reports);
  }

  lemma {:induction false} RecognisedStays(reports: seq<Report>, j: nat, n: nat)
    requires forall i | 0 <= i < |reports| && reports[i].source.Some? :: SourceMode(reports[i].source.value).Some?
    requires j <= n <= |reports| && Recognised(reports, j)
    ensures Recognised(reports, n)
    decreases n
  {
    if j < n { RecognisedStays(reports, j, n - 1); }
  }

  lemma DiskIsRecognised()
    ensures SourceMode(SOURCES + "Disk") == Some(Hdd) && SourceMode("") == None && SourceMode(UNSET.source) == None
  {
    var disk := SOURCES + "Disk";
    assert |SOURCES + "ExternalMedia"| > |disk| && |SOURCES + "Network"| > |disk|;
    assert |SOURCES + "RemovableMedia"| > |disk| && |SOURCES + "Default"| > |disk| > 3;
  }

  /** A disk, and then a source that is not recognised: the mode of the disk is left, and a fresh read has none. */
  lemma ModeIsLeftOver()
    ensures var reports := [Report(None, Some(SOURCES + "Disk")), Report(None, Some(""))];
            After(reports).mode == Hdd && FreshMode(reports) == NoMode
  {
    var reports := [Report(None, Some(SOURCES + "Disk")), Report(None, Some(""))];
    DiskIsRecognised();
    assert reports[..1] == [reports[0]] && reports[..1][..0] == [];
    assert After(reports[..1]) == Next(UNSET, reports[0]);
    assert OwnMode(reports, 2) == OwnMode(reports, 1) == OwnMode(reports, 0);
  }

  // ---------------------------------------------------------------------------------------------
  // As a query for a D-Bus object: the two properties are on interfaces of their own.

  const MODE_IFACE := "xyz.openbmc_project.Control.Boot.Mode"

  const SOURCE_IFACE := "xyz.openbmc_project.Control.Boot.Source"

  const BOOT_MODE := "BootMode"

  const BOOT_SOURCE := "BootSource"

  const FIELD_MODE := "Mode"

  const FIELD_SOURCE := "Source"

  lemma NamesDiffer()
    ensures MODE_IFACE != SOURCE_IFACE && BOOT_MODE != BOOT_SOURCE && FIELD_MODE != FIELD_SOURCE
  {
    assert |MODE_IFACE| < |SOURCE_IFACE| && BOOT_MODE[4] == 'M' && BOOT_SOURCE[4] == 'S' && FIELD_MODE[0] == 'M';
  }

  function FormatModeValue(v: Value): Value { Num(Rank(FormatMode(if v.Str? then v.s else ""))) }

  const MODE_SETTER := P.Setter(BOOT_MODE, FIELD_MODE, [FormatModeValue])

  const SOURCE_SETTER := P.Setter(BOOT_SOURCE, FIELD_SOURCE, [])

  const TABLE := [P.Endpoint(MODE_IFACE, [MODE_SETTER]), P.Endpoint(SOURCE_IFACE, [SOURCE_SETTER])]

  function ModeOfRank(n: int): Mode {
    if n == 0 then Diags else if n == 1 then BiosSetup else if n == 2 then Hdd else if n == 3 then Cd
    else if n == 4 then Pxe else if n == 5 then Usb else NoMode
  }

  /** The two fields of an object's members. */
  function BootOf(m: P.Members): Boot {
    Boot(if FIELD_MODE in m && m[FIELD_MODE].Num? then ModeOfRank(m[FIELD_MODE].n) else UNSET.mode,
         if FIELD_SOURCE in m && m[FIELD_SOURCE].Str? then m[FIELD_SOURCE].s else UNSET.source)
  }

  function DeriveMode(m: P.Members): P.Members { m[FIELD_MODE := Num(Rank(Derived(BootOf(m)).mode))] }

  const QUERY := P.Query(TABLE, TABLE, DeriveMode)

  /** Both properties are texts. */
  predicate AreTexts(changed: P.Members) {
    (BOOT_MODE in changed ==> changed[BOOT_MODE].Str?) && (BOOT_SOURCE in changed ==> changed[BOOT_SOURCE].Str?)
  }

  function TextAt(changed: P.Members, property: string): Option<string> {
    if property in changed && changed[property].Str? then Some(changed[property].s) else None
  }

  /** What a signal says of the two. */
  function ReportOf(r: P.Report): Report {
    Report(if r.iface == MODE_IFACE then TextAt(r.changed, BOOT_MODE) else None,
           if r.iface == SOURCE_IFACE then TextAt(r.changed, BOOT_SOURCE) else None)
  }

  function ReportsOf(signals: seq<P.Report>): seq<Report> {
    seq(|signals|, i requires 0 <= i < |signals| => ReportOf(signals[i]))
  }

  lemma FillGives(m: P.Members, iface: string, changed: P.Members)
    requires AreTexts(changed)
    ensures P.Fill(m, P.SettersOf(TABLE, iface), TABLE, changed) ==
            if iface == MODE_IFACE && BOOT_MODE in changed then m[FIELD_MODE := FormatModeValue(changed[BOOT_MODE])]
            else if iface == SOURCE_IFACE && BOOT_SOURCE in changed then m[FIELD_SOURCE := changed[BOOT_SOURCE]]
            else m
  {
    NamesDiffer();
    TableHas();
    if iface == MODE_IFACE {
      OneSetter(m, MODE_SETTER, changed);
    } else if iface == SOURCE_IFACE {
      OneSetter(m, SOURCE_SETTER, changed);
    }
  }

  lemma OneSetter(m: P.Members, s: P.Setter, changed: P.Members)
    ensures P.Fill(m, [s], TABLE, changed) == P.FillOne(m, s, TABLE, changed)
  {
    assert [s][..0] == [];
  }

  lemma TableHas()
    ensures P.SettersOf(TABLE, MODE_IFACE) == [MODE_SETTER] && P.SettersOf(TABLE, SOURCE_IFACE) == [SOURCE_SETTER]
    ensures forall iface | iface != MODE_IFACE && iface != SOURCE_IFACE :: P.SettersOf(TABLE, iface) == []
    ensures forall v :: P.Format(TABLE, BOOT_MODE, v) == FormatModeValue(v)
    ensures forall v :: P.Format(TABLE, BOOT_SOURCE, v) == v
  {
    NamesDiffer();
    assert TABLE[1..] == [P.Endpoint(SOURCE_IFACE, [SOURCE_SETTER])] && TABLE[1..][1..] == [];
    assert P.AllSetters(TABLE[1..]) == [SOURCE_SETTER];
    assert P.AllSetters(TABLE) == [MODE_SETTER] + [SOURCE_SETTER] == [MODE_SETTER, SOURCE_SETTER];
    assert [MODE_SETTER, SOURCE_SETTER][1..] == [SOURCE_SETTER];
    forall iface | iface != MODE_IFACE && iface != SOURCE_IFACE ensures P.SettersOf(TABLE, iface) == [] {
      assert P.SettersOf(TABLE, iface) == P.SettersOf(TABLE[1..], iface) == P.SettersOf(TABLE[1..][1..], iface);
    }
    assert P.FirstFor([MODE_SETTER, SOURCE_SETTER], BOOT_SOURCE) == P.FirstFor([SOURCE_SETTER], BOOT_SOURCE) == Some(SOURCE_SETTER);
    forall v ensures P.Apply([FormatModeValue], v) == FormatModeValue(v) {
      assert [FormatModeValue][1..] == [];
    }
  }

  lemma DerivedBoot(m: P.Members)
    ensures BootOf(DeriveMode(m)) == Derived(BootOf(m))
  {
    NamesDiffer();
  }

  /** A signal changes an object's members as its report changes the two fields. */
  lemma SignalIsReport(m: P.Members, r: P.Report)
    requires AreTexts(r.changed)
    ensures BootOf(P.Next(QUERY, m, r)) == Next(BootOf(m), ReportOf(r))
  {
    NamesDiffer();
    FillGives(m, r.iface, r.changed);
    DerivedBoot(P.Fill(m, P.SettersOf(TABLE, r.iface), TABLE, r.changed));
  }

  lemma {:induction false} SignalsAreReports(signals: seq<P.Report>)
    requires forall i | 0 <= i < |signals| :: AreTexts(signals[i].changed)
    ensures BootOf(P.After(QUERY, map[], signals)) == After(ReportsOf(signals))
  {
    if signals != [] {
      var n := |signals| - 1;
      SignalsAreReports(signals[..n]);
      SignalIsReport(P.After(QUERY, map[], signals[..n]), signals[n]);
      assert ReportsOf(signals)[..n] == ReportsOf(signals[..n]);
    }
  }

  function TextOnBus(bus: P.Bus, iface: string, property: string): Option<string> {
    if iface in bus then TextAt(bus[iface], property) else None
  }

  predicate BusHasTexts(bus: P.Bus) { forall iface | iface in bus :: AreTexts(bus[iface]) }

  lemma FilledFromBus(m: P.Members, bus: P.Bus)
    requires BusHasTexts(bus)
    ensures var m1 := if MODE_IFACE in bus && BOOT_MODE in bus[MODE_IFACE]
                      then m[FIELD_MODE := FormatModeValue(bus[MODE_IFACE][BOOT_MODE])] else m;
            P.FillAll(QUERY, m, TABLE, bus) ==
            if SOURCE_IFACE in bus && BOOT_SOURCE in bus[SOURCE_IFACE]
            then m1[FIELD_SOURCE := bus[SOURCE_IFACE][BOOT_SOURCE]] else m1
  {
    NamesDiffer();
    var first := TABLE[..1];
    assert first[..0] == [] && first[0].iface == MODE_IFACE && TABLE[1].iface == SOURCE_IFACE;
    assert P.FillAll(QUERY, m, first[..0], bus) == m;
    var m1 := P.FillAll(QUERY, m, first, bus);
    if MODE_IFACE in bus { FillGives(m, MODE_IFACE, bus[MODE_IFACE]); }
    if SOURCE_IFACE in bus { FillGives(m1, SOURCE_IFACE, bus[SOURCE_IFACE]); }
  }

  /** A fresh read is one report of both properties. */
  lemma FreshIsOneReport(bus: P.Bus)
    requires BusHasTexts(bus)
    ensures BootOf(P.Fresh(QUERY, map[], bus)) ==
            Next(UNSET, Report(TextOnBus(bus, MODE_IFACE, BOOT_MODE), TextOnBus(bus, SOURCE_IFACE, BOOT_SOURCE)))
  {
    NamesDiffer();
    var m0: P.Members := map[];
    FilledFromBus(m0, bus);
    DerivedBoot(P.FillAll(QUERY, m0, TABLE, bus));
  }

  lemma {:induction false} HeldIsLastReported(signals: seq<P.Report>)
    requires forall i | 0 <= i < |signals| :: AreTexts(signals[i].changed)
    ensures var reports, mode, source :=
              ReportsOf(signals), P.LastReported(signals, MODE_IFACE, BOOT_MODE), P.LastReported(signals, SOURCE_IFACE, BOOT_SOURCE);
            && (mode.Some? ==> mode.value.Str?) && (source.Some? ==> source.value.Str?)
            && OwnMode(reports, |signals|) == (if mode.Some? then FormatMode(mode.value.s) else NoMode)
            && Held(reports, |signals|) == if source.Some? then source.value.s else UNSET.source
  {
    if signals != [] {
      var n := |signals| - 1;
      HeldIsLastReported(signals[..n]);
      assert ReportsOf(signals)[..n] == ReportsOf(signals[..n]);
      OwnModeOfPrefix(ReportsOf(signals), n, n);
      HeldOfPrefix(ReportsOf(signals), n, n);
    }
  }

  lemma {:induction false} OwnModeOfPrefix(reports: seq<Report>, k: nat, n: nat)
    requires n <= k <= |reports|
    ensures OwnMode(reports[..k], n) == OwnMode(reports, n)
    decreases n
  {
    if n > 0 { OwnModeOfPrefix(reports, k, n - 1); }
  }

  lemma {:induction false} HeldOfPrefix(reports: seq<Report>, k: nat, n: nat)
    requires n <= k <= |reports|
    ensures Held(reports[..k], n) == Held(reports, n)
    decreases n
  {
    if n > 0 { HeldOfPrefix(reports, k, n - 1); }
  }

  lemma {:induction false} BusKeepsTexts(signals: seq<P.Report>)
    requires forall i | 0 <= i < |signals| :: AreTexts(signals[i].changed)
    ensures BusHasTexts(P.BusAfter(map[], signals))
  {
    if signals != [] {
      BusKeepsTexts(signals[..|signals| - 1]);
    }
  }

  /** The mode of an object that is kept up to date by signals, and of one that is read afresh. */
  predicate AgreesWithFresh(signals: seq<P.Report>) {
    var kept, read := P.After(QUERY, map[], signals), P.Fresh(QUERY, map[], P.BusAfter(map[], signals));
    BootOf(kept).mode == BootOf(read).mode
  }

  /** So for an object of this query: kept up to date by signals, its mode agrees with a fresh read of the bus
      exactly when none is left over. */
  lemma SignalsAreFreshIff(signals: seq<P.Report>)
    requires forall i | 0 <= i < |signals| :: AreTexts(signals[i].changed)
    ensures AgreesWithFresh(signals) <==> !Stale(ReportsOf(signals))
  {
    var bus := P.BusAfter(map[], signals);
    SignalsAreReports(signals);
    BusKeepsTexts(signals);
    FreshIsOneReport(bus);
    P.OnBusAfter(map[], signals, MODE_IFACE, BOOT_MODE);
    P.OnBusAfter(map[], signals, SOURCE_IFACE, BOOT_SOURCE);
    HeldIsLastReported(signals);
    IncrementalIsFreshIff(ReportsOf(signals));
  }

  // ---------------------------------------------------------------------------------------------
  // The two properties' values by name.

  const MODE_PREFIX := "xyz.openbmc_project.Control.Boot.Mode.Modes."

  const SOURCE_PREFIX := "xyz.openbmc_project.Control.Boot.Source.Sources."

  lemma ModesByName()
    ensures FormatMode(MODE_PREFIX + "Safe") == Diags
    ensures FormatMode(MODE_PREFIX + "Setup") == BiosSetup
    ensures FormatMode(MODE_PREFIX + "Regular") == NoMode
  {
    assert "Safe" != "Setup" && "Safe" != "Regular" && "Setup" != "Regular" by { assert |"Safe"| == 4 && |"Setup"| == 5 && |"Regular"| == 7; }
    SamePrefix(MODES, "Safe", "Setup");
    SamePrefix(MODES, "Safe", "Regular");
    SamePrefix(MODES, "Setup", "Regular");
  }

  lemma SamePrefix(p: string, a: string, b: string)
    requires a != b
    ensures p + a != p + b
  {
    assert (p + a)[|p|..] == a && (p + b)[|p|..] == b;
  }

  lemma SourceNamesDiffer()
    ensures |SOURCES + "Disk"| == |SOURCES| + 4 && |SOURCES + "ExternalMedia"| == |SOURCES| + 13
    ensures |SOURCES + "Network"| == |SOURCES| + 7 && |SOURCES + "RemovableMedia"| == |SOURCES| + 14
    ensures SOURCES + "Default" != SOURCES + "Network" && |SOURCES + "Default"| == |SOURCES| + 7
  {
    assert "Default"[0] != "Network"[0];
    SamePrefix(SOURCES, "Default", "Network");
  }

  lemma SourcesByName()
    ensures SourceMode(SOURCE_PREFIX + "Disk") == Some(Hdd)
    ensures SourceMode(SOURCE_PREFIX + "ExternalMedia") == Some(Cd)
    ensures SourceMode(SOURCE_PREFIX + "Network") == Some(Pxe)
    ensures SourceMode(SOURCE_PREFIX + "RemovableMedia") == Some(Usb)
    ensures SourceMode(SOURCE_PREFIX + "Default") == Some(NoMode)
  {
    SourceNamesDiffer();
  }

  /** Whatever was reported before, a boot mode of Safe or Setup is shown at once, as number 0 or 1. */
  lemma ReportedModeIsShown(reports: seq<Report>, source: Option<string>)
    ensures Rank(After(reports + [Report(Some(MODE_PREFIX + "Safe"), source)]).mode) == 0
    ensures Rank(After(reports + [Report(Some(MODE_PREFIX + "Setup"), source)]).mode) == 1
  {
    ModesByName();
    LastReportIsNext(reports, Report(Some(MODE_PREFIX + "Safe"), source));
    LastReportIsNext(reports, Report(Some(MODE_PREFIX + "Setup"), source));
  }

  lemma LastReportIsNext(reports: seq<Report>, r: Report)
    ensures After(reports + [r]) == Next(After(reports), r)
  {
    assert (reports + [r])[..|reports|] == reports;
  }

  predicate IsOwnMode(mode: string, n: nat) {
    (mode == MODE_PREFIX + "Safe" && n == 0) || (mode == MODE_PREFIX + "Setup" && n == 1)
  }

  /** The numbers of the sources. */
  predicate IsSource(source: string, n: nat) {
    || (source == SOURCE_PREFIX + "Disk" && n == 2)
    || (source == SOURCE_PREFIX + "ExternalMedia" && n == 3)
    || (source == SOURCE_PREFIX + "Network" && n == 4)
    || (source == SOURCE_PREFIX + "RemovableMedia" && n == 5)
    || (source == SOURCE_PREFIX + "Default" && n == 6)
  }

  lemma SourceIsNumbered(source: string, n: nat)
    requires IsSource(source, n)
    ensures SourceMode(source).Some? && Rank(SourceMode(source).value) == n
  {
    SourcesByName();
  }

  /** With a regular boot mode it is the source that is shown: 2 for the disk, 3 for external media, 4 for the
      network, 5 for removable media, and 6, no mode, for the default. */
  lemma ReportedSourceIsShown(reports: seq<Report>, source: string, n: nat)
    requires IsSource(source, n)
    ensures Rank(After(reports + [Report(Some(MODE_PREFIX + "Regular"), Some(source))]).mode) == n
  {
    ModesByName();
    SourceIsNumbered(source, n);
    LastReportIsNext(reports, Report(Some(MODE_PREFIX + "Regular"), Some(source)));
  }

  const MODE_INTERFACE := "xyz.openbmc_project.Control.Boot.Mode"

  const SOURCE_INTERFACE := "xyz.openbmc_project.Control.Boot.Source"

  lemma {:induction false} ModeIsMember(signals: seq<P.Report>)
    requires signals != [] && forall i | 0 <= i < |signals| :: AreTexts(signals[i].changed)
    ensures P.Get(P.After(QUERY, map[], signals), "Mode") == Some(Num(Rank(After(ReportsOf(signals)).mode)))
  {
    var n := |signals| - 1;
    var r := signals[n];
    var before := P.After(QUERY, map[], signals[..n]);
    SignalsAreReports(signals);
    DerivedBoot(P.Fill(before, P.SettersOf(TABLE, r.iface), TABLE, r.changed));
  }

  lemma ReportsOneMore(signals: seq<P.Report>, r: P.Report)
    ensures ReportsOf(signals + [r]) == ReportsOf(signals) + [ReportOf(r)]
  {
  }

  lemma SignalReports(mode: string, source: string)
    ensures var r := P.Report(MODE_INTERFACE, map["BootMode" := Str(mode)]);
            AreTexts(r.changed) && ReportOf(r) == Report(Some(mode), None)
    ensures var r := P.Report(SOURCE_INTERFACE, map["BootSource" := Str(source)]);
            AreTexts(r.changed) && ReportOf(r) == Report(None, Some(source))
  {
    NamesDiffer();
  }

  predicate AllTexts(signals: seq<P.Report>) { forall i | 0 <= i < |signals| :: AreTexts(signals[i].changed) }

  lemma LastSignal(signals: seq<P.Report>, r: P.Report)
    requires AllTexts(signals) && AreTexts(r.changed)
    ensures AllTexts(signals + [r])
    ensures P.Get(P.After(QUERY, map[], signals + [r]), "Mode") == Some(Num(Rank(After(ReportsOf(signals) + [ReportOf(r)]).mode)))
  {
    ReportsOneMore(signals, r);
    ModeIsMember(signals + [r]);
  }

  lemma OwnModeIsShown(reports: seq<Report>, mode: string, n: nat)
    requires IsOwnMode(mode, n)
    ensures Rank(After(reports + [Report(Some(mode), None)]).mode) == n
  {
    ReportedModeIsShown(reports, None);
  }

  /** What a signal on the interface of the boot mode leaves in the member "Mode", whatever was signalled before. */
  lemma ModeSignalIsShown(signals: seq<P.Report>, mode: string, n: nat)
    requires AllTexts(signals) && IsOwnMode(mode, n)
    ensures P.Get(P.After(QUERY, map[], signals + [P.Report(MODE_INTERFACE, map["BootMode" := Str(mode)])]), "Mode") ==
            Some(Num(n))
  {
    SignalReports(mode, "");
    LastSignal(signals, P.Report(MODE_INTERFACE, map["BootMode" := Str(mode)]));
    OwnModeIsShown(ReportsOf(signals), mode, n);
  }

  lemma RegularIsNoOwn(reports: seq<Report>)
    ensures Rank(After(reports + [Report(Some(MODE_PREFIX + "Regular"), None)]).mode) > 1
  {
    ModesByName();
    LastReportIsNext(reports, Report(Some(MODE_PREFIX + "Regular"), None));
    SourceModeRank(After(reports).source);
  }

  lemma LaterSourceIsShown(reports: seq<Report>, source: string, n: nat)
    requires Rank(After(reports).mode) > 1
    requires IsSource(source, n)
    ensures Rank(After(reports + [Report(None, Some(source))]).mode) == n
  {
    SourceIsNumbered(source, n);
    LastReportIsNext(reports, Report(None, Some(source)));
  }

  lemma RegularThenSource(reports: seq<Report>, source: string, n: nat)
    requires IsSource(source, n)
    ensures Rank(After(reports + [Report(Some(MODE_PREFIX + "Regular"), None)] + [Report(None, Some(source))]).mode) == n
  {
    RegularIsNoOwn(reports);
    LaterSourceIsShown(reports + [Report(Some(MODE_PREFIX + "Regular"), None)], source, n);
  }

  lemma LastTwoSignals(signals: seq<P.Report>, a: P.Report, b: P.Report)
    requires AllTexts(signals) && AreTexts(a.changed) && AreTexts(b.changed)
    ensures P.Get(P.After(QUERY, map[], signals + [a] + [b]), "Mode") ==
            Some(Num(Rank(After(ReportsOf(signals) + [ReportOf(a)] + [ReportOf(b)]).mode)))
  {
    ReportsOneMore(signals, a);
    LastSignal(signals, a);
    LastSignal(signals + [a], b);
  }

  /** And what one on the interface of the boot source leaves there, after a regular boot mode. */
  lemma SourceSignalIsShown(signals: seq<P.Report>, source: string, n: nat)
    requires AllTexts(signals) && IsSource(source, n)
    ensures var regular := P.Report(MODE_INTERFACE, map["BootMode" := Str(MODE_PREFIX + "Regular")]);
            var r := P.Report(SOURCE_INTERFACE, map["BootSource" := Str(source)]);
            P.Get(P.After(QUERY, map[], signals + [regular] + [r]), "Mode") == Some(Num(n))
  {
    var regular := P.Report(MODE_INTERFACE, map["BootMode" := Str(MODE_PREFIX + "Regular")]);
    var r := P.Report(SOURCE_INTERFACE, map["BootSource" := Str(source)]);
    SignalReports(MODE_PREFIX + "Regular", source);
    LastTwoSignals(signals, regular, r);
    RegularThenSource(ReportsOf(signals), source, n);
  }
}
