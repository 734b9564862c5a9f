/** Event admission and the four time-keyed event maps. The tree readers are
    modelled as input sequences of rows; each admitted row is copied into an
    event record and inserted into a multimap keyed by its timestamp. */
module TreeManager {
  import opened TimeIndex
  import opened ClusterGeometry

  /** One entry of the implant, gated-implant or decay tree: the branches
      time, time_x, time_y, x, y, e, ex, ey, csx, csy, cminx, cminy, cmaxx,
      cmaxy, dssd and sp. */
  datatype DssdRow = DssdRow(
    time: nat, timeX: nat, timeY: nat,
    x: real, y: real, e: real, ex: real, ey: real,
    csx: int, csy: int, cminx: int, cminy: int, cmaxx: int, cmaxy: int,
    dssd: int, sp: int)

  /** One entry of the germanium tree: time, energy and sp. */
  datatype GermaniumRow = GermaniumRow(time: nat, energy: real, sp: int)

  /** An implant or decay record as stored in the event maps. */
  datatype DssdEvent = DssdEvent(
    time: nat, timeX: nat, timeY: nat,
    x: real, y: real, e: real, eX: real, eY: real,
    csX: int, csY: int, cminX: int, cmaxX: int, cminY: int, cmaxY: int,
    dssd: int, spill: int)

  type ImplantEvent = DssdEvent
  type DecayEvent = DssdEvent

  datatype GermaniumEvent = GermaniumEvent(time: nat, e: real, spill: int)

  /** The admission thresholds. They come from the configuration, so the model
      takes them as parameters. */
  datatype Cuts = Cuts(
    dssd: int,
    implantTimeDiff: real,
    decayTimeDiff: real,
    decayEnergyDiff: real,
    decayEnergyMin: real,
    decayEnergyMax: real,
    germaniumEnergyMin: real)

  /** The four maps handed on to the correlation stage. */
  datatype EventMaps = EventMaps(
    implant: TimeMap<ImplantEvent>,
    gatedImplant: TimeMap<ImplantEvent>,
    decay: TimeMap<DecayEvent>,
    germanium: TimeMap<GermaniumEvent>)

  /** Conversion of an energy to a signed 64-bit integer: truncation toward zero. */
  function TruncToLong(v: real): (r: int)
    ensures Abs(r) as real <= (if v < 0.0 then -v else v)
    ensures (if v < 0.0 then -v else v) < Abs(r) as real + 1.0
    ensures r != 0 ==> (r < 0 <==> v < 0.0)
  {
    if v >= 0.0 then v.Floor else -((-v).Floor)
  }

  /** The x/y timing skew of a row, as a signed difference of the two timestamps. */
  function TimeSkew(row: DssdRow): int {
    row.timeX as int - row.timeY as int
  }

  /** Implant admission: the configured detector, and a timing skew strictly below the cut. */
  predicate ImplantPassesCuts(cuts: Cuts, row: DssdRow) {
    row.dssd == cuts.dssd && (Abs(TimeSkew(row)) as real) < cuts.implantTimeDiff
  }

  /** Decay admission: the configured detector, timing skew and truncated x/y
      energy difference strictly below their cuts, and energy strictly inside
      the window. */
  predicate DecayPassesCuts(cuts: Cuts, row: DssdRow) {
    && row.dssd == cuts.dssd
    && (Abs(TimeSkew(row)) as real) < cuts.decayTimeDiff
    && (Abs(TruncToLong(row.ex) - TruncToLong(row.ey)) as real) < cuts.decayEnergyDiff
    && row.e > cuts.decayEnergyMin
    && row.e < cuts.decayEnergyMax
  }

  /** Germanium admission: an energy threshold only. */
  predicate GermaniumPassesCuts(cuts: Cuts, row: GermaniumRow) {
    row.energy > cuts.germaniumEnergyMin
  }

  /** The admission tests as values, so that every contract names the same test. */
  function ImplantAdmit(cuts: Cuts): DssdRow -> bool {
    r => ImplantPassesCuts(cuts, r)
  }

  /** The gated-implant loop's test: it reads the implant reader's branches,
      which hold `implantReaderRow` once the implant loop has finished, so every
      gated row gets the same verdict. */
  function ImplantReaderAdmit(cuts: Cuts, implantReaderRow: DssdRow): DssdRow -> bool {
    r => ImplantPassesCuts(cuts, implantReaderRow)
  }

  function DecayAdmit(cuts: Cuts): DssdRow -> bool {
    r => DecayPassesCuts(cuts, r)
  }

  function GermaniumAdmit(cuts: Cuts): GermaniumRow -> bool {
    r => GermaniumPassesCuts(cuts, r)
  }

  /** The stored record: every branch copied, cluster bounds in the order
      min x, max x, min y, max y. */
  function ToEvent(row: DssdRow): DssdEvent {
    DssdEvent(row.time, row.timeX, row.timeY, row.x, row.y, row.e, row.ex, row.ey,
              row.csx, row.csy, row.cminx, row.cmaxx, row.cminy, row.cmaxy, row.dssd, row.sp)
  }

  function ToGermaniumEvent(row: GermaniumRow): GermaniumEvent {
    GermaniumEvent(row.time, row.energy, row.sp)
  }

  /** The (time, record) entries of the admitted rows, in reading order. */
  function Admitted<R, E>(rows: seq<R>, admit: R -> bool, toEntry: R -> (nat, E)): (entries: seq<(nat, E)>)
    ensures |entries| <= |rows|
    ensures forall e :: e in entries ==> exists r :: r in rows && admit(r) && toEntry(r) == e
    ensures forall r :: r in rows && admit(r) ==> toEntry(r) in entries
    decreases |rows|
  {
    if |rows| == 0 then []
    else
      var rest := Admitted(rows[1..], admit, toEntry);
      assert forall r :: r in rows[1..] ==> r in rows;
      assert forall r :: r in rows ==> r == rows[0] || r in rows[1..];
      if admit(rows[0]) then [toEntry(rows[0])] + rest else rest
  }

  /** `Admitted` is the reading loop: a row read last contributes one entry, at
      the end, exactly when it passes the test. */
  lemma {:induction false} AdmittedSnoc<R, E>(rows: seq<R>, r: R, admit: R -> bool, toEntry: R -> (nat, E))
    ensures Admitted(rows + [r], admit, toEntry) ==
      Admitted(rows, admit, toEntry) + (if admit(r) then [toEntry(r)] else [])
    decreases |rows|
  {
    if |rows| == 0 {
      assert rows + [r] == [r];
      assert [r][1..] == [];
    } else {
      assert (rows + [r])[1..] == rows[1..] + [r];
      AdmittedSnoc(rows[1..], r, admit, toEntry);
    }
  }

  /** Every entry of a map built from the admitted entries comes from an admitted row. */
  lemma IndexedEntriesAdmitted<R, E>(m: TimeMap<E>, rows: seq<R>, admit: R -> bool, toEntry: R -> (nat, E))
    requires multiset(m) == multiset(Admitted(rows, admit, toEntry))
    ensures forall i :: 0 <= i < |m| ==> exists r :: r in rows && admit(r) && toEntry(r) == m[i]
  {
    forall i | 0 <= i < |m| ensures exists r :: r in rows && admit(r) && toEntry(r) == m[i] {
      assert m[i] in multiset(m);
      assert m[i] in Admitted(rows, admit, toEntry);
    }
  }

  /** A map holding the admitted DSSD entries keys each record by its own time. */
  lemma DssdEntriesKeyedByOwnTime(m: TimeMap<DssdEvent>, rows: seq<DssdRow>, admit: DssdRow -> bool)
    requires multiset(m) == multiset(Admitted(rows, admit, DssdEntry))
    ensures forall i :: 0 <= i < |m| ==>
      m[i].0 == m[i].1.time && exists r :: r in rows && admit(r) && m[i].1 == ToEvent(r)
  {
    forall i | 0 <= i < |m| ensures m[i].0 == m[i].1.time && exists r :: r in rows && admit(r) && m[i].1 == ToEvent(r) {
      assert m[i] in multiset(m);
      assert m[i] in Admitted(rows, admit, DssdEntry);
      var r :| r in rows && admit(r) && DssdEntry(r) == m[i];
    }
  }

  function DssdEntry(row: DssdRow): (nat, DssdEvent) {
    (row.time, ToEvent(row))
  }

  function GermaniumEntry(row: GermaniumRow): (nat, GermaniumEvent) {
    (row.time, ToGermaniumEvent(row))
  }

  /** The implant map: admitted implant rows keyed by their own time. */
  function FillImplantMap(cuts: Cuts, rows: seq<DssdRow>): (m: TimeMap<ImplantEvent>)
    ensures IsStableIndexOf(m, Admitted(rows, ImplantAdmit(cuts), DssdEntry))
    ensures forall i :: 0 <= i < |m| ==>
      m[i].0 == m[i].1.time && exists r :: r in rows && ImplantPassesCuts(cuts, r) && m[i].1 == ToEvent(r)
  {
    var entries := Admitted(rows, ImplantAdmit(cuts), DssdEntry);
    var m := BuildIndex(entries);
    IndexedEntriesAdmitted(m, rows, ImplantAdmit(cuts), DssdEntry);
    m
  }

  /** The gated-implant map as the source builds it: the admission test reads
      the implant reader's current values (`implantRow`), not the gated row's,
      while the stored record is the gated row's. */
  function FillGatedImplantMapAsWritten(cuts: Cuts, gatedRows: seq<DssdRow>, implantRow: DssdRow): (m: TimeMap<ImplantEvent>)
    ensures IsStableIndexOf(m, Admitted(gatedRows, ImplantReaderAdmit(cuts, implantRow), DssdEntry))
    ensures forall i :: 0 <= i < |m| ==>
      m[i].0 == m[i].1.time && exists r :: r in gatedRows && m[i].1 == ToEvent(r)
  {
    var m := BuildIndex(Admitted(gatedRows, ImplantReaderAdmit(cuts, implantRow), DssdEntry));
    DssdEntriesKeyedByOwnTime(m, gatedRows, ImplantReaderAdmit(cuts, implantRow));
    m
  }

  /** The gated-implant map with each gated row judged by its own fields. */
  function FillGatedImplantMap(cuts: Cuts, gatedRows: seq<DssdRow>): (m: TimeMap<ImplantEvent>)
    ensures IsStableIndexOf(m, Admitted(gatedRows, ImplantAdmit(cuts), DssdEntry))
    ensures forall i :: 0 <= i < |m| ==>
      m[i].0 == m[i].1.time && exists r :: r in gatedRows && ImplantPassesCuts(cuts, r) && m[i].1 == ToEvent(r)
  {
    FillImplantMap(cuts, gatedRows)
  }

  /** The decay map: admitted decay rows keyed by their own time. */
  function FillDecayMap(cuts: Cuts, rows: seq<DssdRow>): (m: TimeMap<DecayEvent>)
    ensures IsStableIndexOf(m, Admitted(rows, DecayAdmit(cuts), DssdEntry))
    ensures forall i :: 0 <= i < |m| ==>
      m[i].0 == m[i].1.time && exists r :: r in rows && DecayPassesCuts(cuts, r) && m[i].1 == ToEvent(r)
  {
    var entries := Admitted(rows, DecayAdmit(cuts), DssdEntry);
    var m := BuildIndex(entries);
    IndexedEntriesAdmitted(m, rows, DecayAdmit(cuts), DssdEntry);
    m
  }

  /** The germanium map: admitted germanium rows keyed by their own time. */
  function FillGermaniumMap(cuts: Cuts, rows: seq<GermaniumRow>): (m: TimeMap<GermaniumEvent>)
    ensures IsStableIndexOf(m, Admitted(rows, GermaniumAdmit(cuts), GermaniumEntry))
    ensures forall i :: 0 <= i < |m| ==>
      m[i].0 == m[i].1.time && m[i].1.e > cuts.germaniumEnergyMin
  {
    var entries := Admitted(rows, GermaniumAdmit(cuts), GermaniumEntry);
    var m := BuildIndex(entries);
    IndexedEntriesAdmitted(m, rows, GermaniumAdmit(cuts), GermaniumEntry);
    m
  }

  /** All four maps, read one tree after another, as the source reads them.
      `implantReaderRow` is what the implant reader's branches hold once the
      implant loop has finished; the gated loop's admission test reads it. */
  function FillMaps(cuts: Cuts, implantRows: seq<DssdRow>, implantReaderRow: DssdRow, gatedRows: seq<DssdRow>,
                    decayRows: seq<DssdRow>, germaniumRows: seq<GermaniumRow>): (maps: EventMaps)
    ensures IsStableIndexOf(maps.implant, Admitted(implantRows, ImplantAdmit(cuts), DssdEntry))
    ensures IsStableIndexOf(maps.gatedImplant, Admitted(gatedRows, ImplantReaderAdmit(cuts, implantReaderRow), DssdEntry))
    ensures IsStableIndexOf(maps.decay, Admitted(decayRows, DecayAdmit(cuts), DssdEntry))
    ensures IsStableIndexOf(maps.germanium, Admitted(germaniumRows, GermaniumAdmit(cuts), GermaniumEntry))
    ensures forall i :: 0 <= i < |maps.implant| ==> maps.implant[i].0 == maps.implant[i].1.time
    ensures forall i :: 0 <= i < |maps.gatedImplant| ==> maps.gatedImplant[i].0 == maps.gatedImplant[i].1.time
    ensures forall i :: 0 <= i < |maps.decay| ==> maps.decay[i].0 == maps.decay[i].1.time
    ensures forall i :: 0 <= i < |maps.germanium| ==> maps.germanium[i].0 == maps.germanium[i].1.time
  {
    EventMaps(FillImplantMap(cuts, implantRows), FillGatedImplantMapAsWritten(cuts, gatedRows, implantReaderRow),
              FillDecayMap(cuts, decayRows), FillGermaniumMap(cuts, germaniumRows))
  }

  /** All four maps with the gated loop testing each gated row on its own fields. */
  function FillMapsIntended(cuts: Cuts, implantRows: seq<DssdRow>, gatedRows: seq<DssdRow>,
                            decayRows: seq<DssdRow>, germaniumRows: seq<GermaniumRow>): (maps: EventMaps)
    ensures IsStableIndexOf(maps.implant, Admitted(implantRows, ImplantAdmit(cuts), DssdEntry))
    ensures IsStableIndexOf(maps.gatedImplant, Admitted(gatedRows, ImplantAdmit(cuts), DssdEntry))
    ensures IsStableIndexOf(maps.decay, Admitted(decayRows, DecayAdmit(cuts), DssdEntry))
    ensures IsStableIndexOf(maps.germanium, Admitted(germaniumRows, GermaniumAdmit(cuts), GermaniumEntry))
    ensures forall i :: 0 <= i < |maps.gatedImplant| ==>
      && maps.gatedImplant[i].0 == maps.gatedImplant[i].1.time
      && exists r :: r in gatedRows && ImplantPassesCuts(cuts, r) && maps.gatedImplant[i].1 == ToEvent(r)
  {
    EventMaps(FillImplantMap(cuts, implantRows), FillGatedImplantMap(cuts, gatedRows),
              FillDecayMap(cuts, decayRows), FillGermaniumMap(cuts, germaniumRows))
  }

  // ---------------------------------------------------------------------------
  // Properties
  // ---------------------------------------------------------------------------

  /** Every admission comparison is strict: a skew equal to the cut, or an energy
      equal to a window bound, is rejected. */
  lemma AdmissionCutsAreStrict(cuts: Cuts, row: DssdRow, g: GermaniumRow)
    ensures Abs(TimeSkew(row)) as real == cuts.implantTimeDiff ==> !ImplantPassesCuts(cuts, row)
    ensures row.e == cuts.decayEnergyMin || row.e == cuts.decayEnergyMax ==> !DecayPassesCuts(cuts, row)
    ensures Abs(TimeSkew(row)) as real == cuts.decayTimeDiff ==> !DecayPassesCuts(cuts, row)
    ensures g.energy == cuts.germaniumEnergyMin ==> !GermaniumPassesCuts(cuts, g)
  {
  }

  /** The decay energy-difference cut compares truncated energies: x/y energies
      of 10.9 and 10.1 differ by 0.8 but truncate to the same value, while 11.0
      and 10.9 differ by 0.1 yet truncate one unit apart. */
  lemma DecayEnergyDifferenceTruncates()
    ensures TruncToLong(10.9) == TruncToLong(10.1) == 10
    ensures TruncToLong(11.0) - TruncToLong(10.9) == 1
    ensures TruncToLong(-10.9) == -10
  {
  }

  /** The implant map never depends on the row's spill, position or energies:
      rows that differ only there are admitted alike. */
  lemma ImplantAdmissionIgnoresEnergyAndPosition(cuts: Cuts, row: DssdRow, e: real, x: real, y: real, sp: int)
    ensures ImplantPassesCuts(cuts, row.(e := e, x := x, y := y, sp := sp)) == ImplantPassesCuts(cuts, row)
  {
  }

  /** A germanium row is admitted on energy alone, at any time and spill phase. */
  lemma GermaniumAdmissionIsEnergyOnly(cuts: Cuts, row: GermaniumRow, t: nat, sp: int)
    ensures GermaniumPassesCuts(cuts, row.(time := t, sp := sp)) == GermaniumPassesCuts(cuts, row)
  {
  }

  /** As written, the gated-implant map is all or nothing: it holds every gated
      row when the implant reader's values pass the implant cuts, and none
      otherwise, whatever the gated rows contain. */
  lemma {:induction false} GatedAdmissionIgnoresGatedRows(cuts: Cuts, gatedRows: seq<DssdRow>, implantRow: DssdRow)
    ensures ImplantPassesCuts(cuts, implantRow) ==> |FillGatedImplantMapAsWritten(cuts, gatedRows, implantRow)| == |gatedRows|
    ensures !ImplantPassesCuts(cuts, implantRow) ==> FillGatedImplantMapAsWritten(cuts, gatedRows, implantRow) == []
  {
    var entries := Admitted(gatedRows, ImplantReaderAdmit(cuts, implantRow), DssdEntry);
    AdmittedLength(gatedRows, ImplantReaderAdmit(cuts, implantRow), DssdEntry, ImplantPassesCuts(cuts, implantRow));
    var m := FillGatedImplantMapAsWritten(cuts, gatedRows, implantRow);
    assert |m| == |multiset(m)| == |multiset(entries)| == |entries|;
  }

  /** With a constant admission test, either every row or no row is admitted. */
  lemma {:induction false} AdmittedLength<R, E>(rows: seq<R>, admit: R -> bool, toEntry: R -> (nat, E), verdict: bool)
    requires forall r :: admit(r) == verdict
    ensures |Admitted(rows, admit, toEntry)| == (if verdict then |rows| else 0)
    decreases |rows|
  {
    if |rows| > 0 {
      AdmittedLength(rows[1..], admit, toEntry, verdict);
    }
  }

  /** A gated row on the wrong detector is stored as written, because the test
      reads the implant reader, but is rejected by the corrected map. */
  lemma GatedAdmissionCounterexample()
    ensures
      var cuts := Cuts(1, 5000.0, 5000.0, 168.0, 150.0, 1000.0, 20.0);
      var implantRow := DssdRow(100, 100, 100, 0.0, 0.0, 5000.0, 0.0, 0.0, 1, 1, 10, 10, 11, 11, 1, 0);
      var gatedRow := DssdRow(200, 200, 100000, 0.0, 0.0, 5000.0, 0.0, 0.0, 1, 1, 10, 10, 11, 11, 2, 0);
      && |FillGatedImplantMapAsWritten(cuts, [gatedRow], implantRow)| == 1
      && FillGatedImplantMap(cuts, [gatedRow]) == []
  {
    var cuts := Cuts(1, 5000.0, 5000.0, 168.0, 150.0, 1000.0, 20.0);
    var implantRow := DssdRow(100, 100, 100, 0.0, 0.0, 5000.0, 0.0, 0.0, 1, 1, 10, 10, 11, 11, 1, 0);
    var gatedRow := DssdRow(200, 200, 100000, 0.0, 0.0, 5000.0, 0.0, 0.0, 1, 1, 10, 10, 11, 11, 2, 0);
    GatedAdmissionIgnoresGatedRows(cuts, [gatedRow], implantRow);
    var m := FillGatedImplantMap(cuts, [gatedRow]);
    assert multiset(m) == multiset{};
  }

  /** The other direction, for the whole fill: when the implant reader's last
      values fail the implant cuts, a gated row that passes them on its own is
      dropped as written and kept by the intended fill. */
  lemma FillMapsGatedCounterexample()
    ensures
      var cuts := Cuts(1, 5000.0, 5000.0, 168.0, 150.0, 1000.0, 20.0);
      var readerRow := DssdRow(100, 100, 100, 0.0, 0.0, 5000.0, 0.0, 0.0, 1, 1, 10, 10, 11, 11, 2, 0);
      var gatedRow := DssdRow(200, 200, 200, 0.0, 0.0, 5000.0, 0.0, 0.0, 1, 1, 10, 10, 11, 11, 1, 0);
      && FillMaps(cuts, [readerRow], readerRow, [gatedRow], [], []).gatedImplant == []
      && FillMapsIntended(cuts, [readerRow], [gatedRow], [], []).gatedImplant == [(200, ToEvent(gatedRow))]
  {
    var cuts := Cuts(1, 5000.0, 5000.0, 168.0, 150.0, 1000.0, 20.0);
    var readerRow := DssdRow(100, 100, 100, 0.0, 0.0, 5000.0, 0.0, 0.0, 1, 1, 10, 10, 11, 11, 2, 0);
    var gatedRow := DssdRow(200, 200, 200, 0.0, 0.0, 5000.0, 0.0, 0.0, 1, 1, 10, 10, 11, 11, 1, 0);
    GatedAdmissionIgnoresGatedRows(cuts, [gatedRow], readerRow);
    SortedImplantRowsStoredInOrder(cuts, [gatedRow]);
  }

  /** Rows already in time order are stored exactly in reading order, each as its copied record. */
  lemma SortedImplantRowsStoredInOrder(cuts: Cuts, rows: seq<DssdRow>)
    requires forall i :: 0 <= i < |rows| ==> ImplantPassesCuts(cuts, rows[i])
    requires forall i, j :: 0 <= i < j < |rows| ==> rows[i].time <= rows[j].time
    ensures |FillImplantMap(cuts, rows)| == |rows|
    ensures forall i :: 0 <= i < |rows| ==> FillImplantMap(cuts, rows)[i] == (rows[i].time, ToEvent(rows[i]))
  {
    var entries := Admitted(rows, ImplantAdmit(cuts), DssdEntry);
    AllAdmittedEntries(rows, ImplantAdmit(cuts), DssdEntry);
    assert KeysSorted(entries);
    BuildIndexOfSortedIsIdentity(entries);
  }

  /** When every row is admitted, the entries are the rows' entries one for one. */
  lemma {:induction false} AllAdmittedEntries<R, E>(rows: seq<R>, admit: R -> bool, toEntry: R -> (nat, E))
    requires forall i :: 0 <= i < |rows| ==> admit(rows[i])
    ensures |Admitted(rows, admit, toEntry)| == |rows|
    ensures forall i :: 0 <= i < |rows| ==> Admitted(rows, admit, toEntry)[i] == toEntry(rows[i])
    decreases |rows|
  {
    if |rows| > 0 {
      AllAdmittedEntries(rows[1..], admit, toEntry);
    }
  }
}
