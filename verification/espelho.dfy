/** The worker's own mirror of clock events: their records newest first, the
    hospital and date filters, the pairing of entries with exits into shift
    rows, and the correction ("justificativa") a worker files for a missing
    exit or entry. The session, the clock, the new UUID and the local time zone
    offset are parameters. */
module Espelho {
  import opened Common
  import opened Types
  import opened Storage
  import Sorting
  import Text
  import PontoMachine
  import Autorizacao

  // ---- loadData -------------------------------------------------------------

  predicate OwnVisible(cooperadoId: string, p: Ponto) {
    p.cooperadoId == cooperadoId && p.status != Rejeitado
  }

  function OwnVisibleOf(cooperadoId: string): Ponto -> bool {
    (p: Ponto) => OwnVisible(cooperadoId, p)
  }

  /** The comparator `b.timestamp - a.timestamp`, as "may come first". */
  predicate NewerFirst(a: Ponto, b: Ponto) {
    a.timestamp >= b.timestamp
  }

  lemma NewerFirstIsTotalPreorder()
    ensures Sorting.TotalPreorder(NewerFirst)
  {
  }

  /** `loadData`: the worker's records except rejected ones, newest first. A
      session that is not a worker's (no id) shows nothing. */
  function MirrorLogs(pontos: seq<Ponto>, cooperadoId: Option<string>): (r: seq<Ponto>)
    ensures !Truthy(cooperadoId) ==> r == []
    ensures Truthy(cooperadoId) ==>
      forall p :: p in r <==> p in pontos && p.cooperadoId == cooperadoId.value && p.status != Rejeitado
    ensures Truthy(cooperadoId) ==> multiset(r) == multiset(Filter(pontos, OwnVisibleOf(cooperadoId.value)))
    ensures forall i, j :: 0 <= i < j < |r| ==> r[i].timestamp >= r[j].timestamp
  {
    if !Truthy(cooperadoId) then []
    else
      NewerFirstIsTotalPreorder();
      var own := Filter(pontos, OwnVisibleOf(cooperadoId.value));
      var r := Sorting.SortBy(own, NewerFirst);
      assert forall p :: p in r <==> p in own by {
        forall p ensures p in r <==> p in own {
          assert p in r <==> p in multiset(r);
        }
      }
      r
  }

  /** The hospital is named by one of the records (a truthy `hospitalId`). */
  predicate UsedBy(logs: seq<Ponto>, h: Hospital) {
    exists p :: p in logs && Truthy(p.hospitalId) && p.hospitalId.value == h.id
  }

  function UsedByOf(logs: seq<Ponto>): Hospital -> bool {
    (h: Hospital) => UsedBy(logs, h)
  }

  /** The hospital dropdown: the registered hospitals the worker's records
      mention, in registration order. */
  function MirrorHospitals(hospitais: seq<Hospital>, logs: seq<Ponto>): (r: seq<Hospital>)
    ensures forall h :: h in r <==> h in hospitais && exists p :: p in logs && Truthy(p.hospitalId) && p.hospitalId.value == h.id
    ensures forall h :: multiset(r)[h] == if UsedBy(logs, h) then multiset(hospitais)[h] else 0
  {
    FilterMultiset(hospitais, UsedByOf(logs));
    Filter(hospitais, UsedByOf(logs))
  }

  // ---- getFilteredLogs --------------------------------------------------------

  /** The filter bar. `hospital` is "" for all hospitals; the date bounds are
      UTC day numbers (see `IsoDay`), `None` standing for an empty date field. */
  datatype Filters = Filters(hospital: string, dateStart: Option<int>, dateEnd: Option<int>)

  predicate Passes(f: Filters, log: Ponto) {
    && (f.hospital == "" || log.hospitalId == Some(f.hospital))
    && (f.dateStart.None? || f.dateStart.value <= IsoDay(log.timestamp))
    && (f.dateEnd.None? || IsoDay(log.timestamp) <= f.dateEnd.value)
  }

  function PassesOf(f: Filters): Ponto -> bool {
    (log: Ponto) => Passes(f, log)
  }

  /** `getFilteredLogs`: the records of the selected hospital whose UTC day lies
      within the selected range, both bounds included, in mirror order. */
  function FilteredLogs(logs: seq<Ponto>, f: Filters): (r: seq<Ponto>)
    ensures forall p :: p in r <==>
      && p in logs
      && (f.hospital == "" || p.hospitalId == Some(f.hospital))
      && (f.dateStart.None? || f.dateStart.value <= IsoDay(p.timestamp))
      && (f.dateEnd.None? || IsoDay(p.timestamp) <= f.dateEnd.value)
    ensures (forall i, j :: 0 <= i < j < |logs| ==> logs[i].timestamp >= logs[j].timestamp) ==>
      forall i, j :: 0 <= i < j < |r| ==> r[i].timestamp >= r[j].timestamp
    ensures forall p :: multiset(r)[p] == if Passes(f, p) then multiset(logs)[p] else 0
    ensures UniqueIds(logs) ==> UniqueIds(r)
  {
    var r := Filter(logs, PassesOf(f));
    FilterMultiset(logs, PassesOf(f));
    assert UniqueIds(logs) ==> UniqueIds(r) by {
      if UniqueIds(logs) {
        FilterKeepsUniqueIds(logs, PassesOf(f));
      }
    }
    assert Sorting.SortedBy(logs, NewerFirst) ==> Sorting.SortedBy(r, NewerFirst) by {
      if Sorting.SortedBy(logs, NewerFirst) {
        Sorting.FilterKeepsSorted(logs, PassesOf(f), NewerFirst);
      }
    }
    r
  }

  /** The filter keeps the mirror's order: it distributes over concatenation. */
  lemma FilteredLogsKeepsOrder(a: seq<Ponto>, b: seq<Ponto>, f: Filters)
    ensures FilteredLogs(a + b, f) == FilteredLogs(a, f) + FilteredLogs(b, f)
  {
    FilterAppend(a, b, PassesOf(f));
  }

  /** With no filter set, every record is listed. */
  lemma NoFiltersKeepsAll(logs: seq<Ponto>)
    ensures FilteredLogs(logs, Filters("", None, None)) == logs
  {
    FilterKeepsAll(logs, PassesOf(Filters("", None, None)));
  }

  /** A record stamped on the first or the last day of the range is listed:
      both bounds are inclusive. */
  lemma RangeBoundsInclusive(logs: seq<Ponto>, p: Ponto, start: int, end: int)
    requires p in logs && IsoDay(p.timestamp) in {start, end} && start <= end
    ensures p in FilteredLogs(logs, Filters("", Some(start), Some(end)))
  {
  }

  // ---- getShiftRows -----------------------------------------------------------

  /** The status column of a shift row. */
  datatype RowStatus = EmAberto | AguardandoAutorizacao | RowFechado | FechadoSemEntrada

  function RowStatusLabel(s: RowStatus): string {
    match s
    case EmAberto => "Em Aberto"
    case AguardandoAutorizacao => "Aguardando Autorização"
    case RowFechado => "Fechado"
    case FechadoSemEntrada => "Fechado (S/E)"
  }

  /** One line of the mirror: an entry with the exit that closes it, or an exit
      whose entry is not listed. The rendered date is left out. */
  datatype ShiftRow = ShiftRow(id: string, local: string, setorNome: string,
                               entry: Option<Ponto>, exit: Option<Ponto>, status: RowStatus)

  /** The sector part of a "hospital - sector" label: the second piece when the
      label splits, else the whole label. */
  function SectorName(local: string): (r: string)
    ensures !Text.HasSep(r)
    ensures !Text.HasSep(local) ==> r == local
    ensures Text.HasSep(local) ==>
      var rest := local[Text.FirstSep(local).value + |Text.Sep|..];
      && (!Text.HasSep(rest) ==> r == rest)
      && (Text.HasSep(rest) ==> r == rest[..Text.FirstSep(rest).value])
  {
    var parts := Text.Split(local);
    if |parts| > 1 then parts[1] else parts[0]
  }

  /** The kiosk's label gives back the sector's name when neither name gets in
      the separator's way. */
  lemma SectorNameOfLocalLabel(hospitais: seq<Hospital>, hospId: string, setId: string)
    requires !Text.HasSep(PontoMachine.HospitalNome(hospitais, hospId) + Text.Sep[..2])
    requires !Text.HasSep(PontoMachine.SetorNome(hospitais, hospId, setId))
    ensures SectorName(PontoMachine.LocalLabel(hospitais, hospId, setId)) == PontoMachine.SetorNome(hospitais, hospId, setId)
  {
  }

  predicate IsExitOf(entryId: string, l: Ponto) {
    l.tipo == Saida && l.relatedId == Some(entryId)
  }

  function IsExitOfOf(entryId: string): Ponto -> bool {
    (l: Ponto) => IsExitOf(entryId, l)
  }

  /** The first listed exit pointing at the entry, whatever its status. */
  function MatchingExit(filtered: seq<Ponto>, entryId: string): (r: Option<Ponto>)
    ensures r.Some? ==> r.value in filtered && r.value.tipo == Saida && r.value.relatedId == Some(entryId)
    ensures r.Some? ==> exists i :: 0 <= i < |filtered| && filtered[i] == r.value && forall j :: 0 <= j < i ==> !IsExitOf(entryId, filtered[j])
    ensures r.None? <==> forall l :: l in filtered ==> !(l.tipo == Saida && l.relatedId == Some(entryId))
  {
    Find(filtered, IsExitOfOf(entryId))
  }

  /** The row of an entry: open until an exit shows up, then awaiting approval
      or closed according to that exit. */
  function EntryRow(filtered: seq<Ponto>, log: Ponto): (row: ShiftRow)
    ensures row.id == log.id && row.local == log.local && row.setorNome == SectorName(log.local)
    ensures row.entry == Some(log) && row.exit == MatchingExit(filtered, log.id)
    ensures row.status == AguardandoAutorizacao <==> row.exit.Some? && row.exit.value.status == Pendente
    ensures row.status == RowFechado <==> row.exit.Some? && row.exit.value.status == Fechado
    ensures row.status != FechadoSemEntrada
  {
    var exit := MatchingExit(filtered, log.id);
    var status :=
      if exit.None? then EmAberto
      else if exit.value.status == Pendente then AguardandoAutorizacao
      else if exit.value.status == Fechado then RowFechado
      else EmAberto;
    ShiftRow(log.id, log.local, SectorName(log.local), Some(log), exit, status)
  }

  /** The first pass: one row per entry, in list order. */
  function EntryRows(filtered: seq<Ponto>, s: seq<Ponto>): (r: seq<ShiftRow>)
    ensures forall row :: row in r ==>
      row.entry.Some? && row.entry.value in s && row.entry.value.tipo == Entrada && row == EntryRow(filtered, row.entry.value)
  {
    if |s| == 0 then []
    else (if s[0].tipo == Entrada then [EntryRow(filtered, s[0])] else []) + EntryRows(filtered, s[1..])
  }

  /** The ids of the exits the first pass matched to an entry. */
  function ProcessedExits(filtered: seq<Ponto>): (ids: set<string>)
    ensures forall id :: id in ids <==>
      exists e :: e in filtered && e.tipo == Entrada && MatchingExit(filtered, e.id).Some? && MatchingExit(filtered, e.id).value.id == id
  {
    set e | e in filtered && e.tipo == Entrada && MatchingExit(filtered, e.id).Some? :: MatchingExit(filtered, e.id).value.id
  }

  predicate IsOrphan(processed: set<string>, l: Ponto) {
    l.tipo == Saida && l.id !in processed
  }

  /** The row of an exit no listed entry claimed. */
  function OrphanRow(log: Ponto): (row: ShiftRow)
    ensures row.id == log.id && row.local == log.local && row.setorNome == SectorName(log.local)
    ensures row.entry.None? && row.exit == Some(log)
    ensures row.status == AguardandoAutorizacao <==> log.status == Pendente
    ensures row.status != AguardandoAutorizacao ==> row.status == FechadoSemEntrada
  {
    ShiftRow(log.id, log.local, SectorName(log.local), None, Some(log),
      if log.status == Pendente then AguardandoAutorizacao else FechadoSemEntrada)
  }

  /** The second pass: one row per unclaimed exit, in list order. */
  function OrphanRows(processed: set<string>, s: seq<Ponto>): (r: seq<ShiftRow>)
    ensures forall row :: row in r ==>
      row.exit.Some? && row.exit.value in s && IsOrphan(processed, row.exit.value) && row == OrphanRow(row.exit.value)
  {
    if |s| == 0 then []
    else (if IsOrphan(processed, s[0]) then [OrphanRow(s[0])] else []) + OrphanRows(processed, s[1..])
  }

  /** The time a row sorts by: its entry's, else its exit's. */
  function RowTime(row: ShiftRow): int {
    if row.entry.Some? then row.entry.value.timestamp
    else if row.exit.Some? then row.exit.value.timestamp
    else 0
  }

  predicate RowNewerFirst(a: ShiftRow, b: ShiftRow) {
    RowTime(a) >= RowTime(b)
  }

  lemma RowNewerFirstIsTotalPreorder()
    ensures Sorting.TotalPreorder(RowNewerFirst)
  {
  }

  /** `getShiftRows`: entry rows then orphan-exit rows, newest first. Every row
      holds a listed entry with its matching exit, or a listed exit nobody
      matched; interval records never show. */
  function ShiftRows(filtered: seq<Ponto>): (rows: seq<ShiftRow>)
    ensures forall i, j :: 0 <= i < j < |rows| ==> RowTime(rows[i]) >= RowTime(rows[j])
    ensures forall row :: row in rows && row.entry.Some? ==>
      row.entry.value in filtered && row.entry.value.tipo == Entrada && row == EntryRow(filtered, row.entry.value)
    ensures forall row :: row in rows && row.entry.None? ==>
      && row.exit.Some? && row.exit.value in filtered && row.exit.value.tipo == Saida
      && row.exit.value.id !in ProcessedExits(filtered) && row == OrphanRow(row.exit.value)
    ensures multiset(rows) == multiset(EntryRows(filtered, filtered) + OrphanRows(ProcessedExits(filtered), filtered))
  {
    RowNewerFirstIsTotalPreorder();
    var unsorted := EntryRows(filtered, filtered) + OrphanRows(ProcessedExits(filtered), filtered);
    var rows := Sorting.SortBy(unsorted, RowNewerFirst);
    assert forall row :: row in rows ==> row in unsorted by {
      forall row | row in rows ensures row in unsorted {
        assert row in multiset(rows);
      }
    }
    rows
  }

  // ---- every listed entry and exit shows exactly once -----------------------------

  function HasEntry(e: Ponto): ShiftRow -> bool {
    (row: ShiftRow) => row.entry == Some(e)
  }

  function HasExit(x: Ponto): ShiftRow -> bool {
    (row: ShiftRow) => row.exit == Some(x)
  }

  /** `e` is an entry whose row will carry the exit `x`. */
  predicate ClaimsExit(filtered: seq<Ponto>, x: Ponto, e: Ponto) {
    e.tipo == Entrada && MatchingExit(filtered, e.id) == Some(x)
  }

  function ClaimsExitOf(filtered: seq<Ponto>, x: Ponto): Ponto -> bool {
    (e: Ponto) => ClaimsExit(filtered, x, e)
  }

  /** With unique ids a listed record occurs once. */
  lemma OccursOnce(s: seq<Ponto>, x: Ponto)
    requires UniqueIds(s) && x in s
    ensures multiset(s)[x] == 1
  {
    var m :| 0 <= m < |s| && s[m] == x;
    assert s == s[..m] + [x] + s[m + 1..];
    assert x !in s[..m] by {
      forall j | 0 <= j < m ensures s[..m][j] != x {
        assert s[..m][j] == s[j];
      }
    }
    var rest := s[m + 1..];
    assert x !in rest by {
      forall j | 0 <= j < |rest| ensures rest[j] != x {
        assert rest[j] == s[m + 1 + j];
      }
    }
  }

  lemma {:induction false} EntryRowsCountEntry(filtered: seq<Ponto>, s: seq<Ponto>, e: Ponto)
    ensures Count(EntryRows(filtered, s), HasEntry(e)) == if e.tipo == Entrada then multiset(s)[e] else 0
  {
    if |s| > 0 {
      var head := if s[0].tipo == Entrada then [EntryRow(filtered, s[0])] else [];
      assert s == [s[0]] + s[1..];
      CountAppend(head, EntryRows(filtered, s[1..]), HasEntry(e));
      EntryRowsCountEntry(filtered, s[1..], e);
    }
  }

  lemma {:induction false} EntryRowsCountExit(filtered: seq<Ponto>, s: seq<Ponto>, x: Ponto)
    ensures Count(EntryRows(filtered, s), HasExit(x)) == Count(s, ClaimsExitOf(filtered, x))
  {
    if |s| > 0 {
      var head := if s[0].tipo == Entrada then [EntryRow(filtered, s[0])] else [];
      assert s == [s[0]] + s[1..];
      CountAppend(head, EntryRows(filtered, s[1..]), HasExit(x));
      CountAppend([s[0]], s[1..], ClaimsExitOf(filtered, x));
      EntryRowsCountExit(filtered, s[1..], x);
    }
  }

  lemma {:induction false} OrphanRowsCountExit(processed: set<string>, s: seq<Ponto>, x: Ponto)
    ensures Count(OrphanRows(processed, s), HasExit(x)) == if IsOrphan(processed, x) then multiset(s)[x] else 0
  {
    if |s| > 0 {
      var head := if IsOrphan(processed, s[0]) then [OrphanRow(s[0])] else [];
      assert s == [s[0]] + s[1..];
      CountAppend(head, OrphanRows(processed, s[1..]), HasExit(x));
      OrphanRowsCountExit(processed, s[1..], x);
    }
  }

  /** With unique ids, two positions hold different ids. */
  lemma DistinctPositionsDistinctIds(s: seq<Ponto>, i: nat, j: nat)
    requires UniqueIds(s) && i < |s| && j < |s|
    ensures i != j ==> s[i].id != s[j].id
  {
  }

  /** An entry that claims an exit is the entry that exit points at. */
  lemma ClaimerIsLinked(filtered: seq<Ponto>, x: Ponto, e: Ponto)
    ensures ClaimsExit(filtered, x, e) ==> x.relatedId == Some(e.id)
    ensures ClaimsExit(filtered, x, e) && e in filtered ==> x.id in ProcessedExits(filtered)
  {
  }

  /** At most one listed entry claims a given exit, and one does exactly when
      the exit's id is among the processed ones. */
  lemma ClaimsCount(filtered: seq<Ponto>, x: Ponto)
    requires UniqueIds(filtered) && x in filtered
    ensures Count(filtered, ClaimsExitOf(filtered, x)) == if x.id in ProcessedExits(filtered) then 1 else 0
  {
    if x.id in ProcessedExits(filtered) {
      var e :| e in filtered && e.tipo == Entrada && MatchingExit(filtered, e.id).Some? && MatchingExit(filtered, e.id).value.id == x.id;
      var y := MatchingExit(filtered, e.id).value;
      var iy :| 0 <= iy < |filtered| && filtered[iy] == y;
      var ix :| 0 <= ix < |filtered| && filtered[ix] == x;
      DistinctPositionsDistinctIds(filtered, iy, ix);
      var m :| 0 <= m < |filtered| && filtered[m] == e;
      ClaimerIsLinked(filtered, x, e);
      forall j | 0 <= j < |filtered| && j != m ensures !ClaimsExit(filtered, x, filtered[j]) {
        ClaimerIsLinked(filtered, x, filtered[j]);
        DistinctPositionsDistinctIds(filtered, j, m);
      }
      CountOne(filtered, ClaimsExitOf(filtered, x), m);
    } else {
      forall j | 0 <= j < |filtered| ensures !ClaimsExit(filtered, x, filtered[j]) {
        ClaimerIsLinked(filtered, x, filtered[j]);
      }
      CountNone(filtered, ClaimsExitOf(filtered, x));
    }
  }

  /** Every listed entry heads exactly one row. */
  lemma ShiftRowsEntryOnce(filtered: seq<Ponto>, e: Ponto)
    requires UniqueIds(filtered) && e in filtered && e.tipo == Entrada
    ensures Count(ShiftRows(filtered), HasEntry(e)) == 1
  {
    var entries := EntryRows(filtered, filtered);
    var orphans := OrphanRows(ProcessedExits(filtered), filtered);
    CountPermutation(ShiftRows(filtered), entries + orphans, HasEntry(e));
    CountAppend(entries, orphans, HasEntry(e));
    EntryRowsCountEntry(filtered, filtered, e);
    OccursOnce(filtered, e);
    forall j | 0 <= j < |orphans| ensures !HasEntry(e)(orphans[j]) {
      assert orphans[j] in orphans;
    }
    CountNone(orphans, HasEntry(e));
  }

  /** Every listed exit shows in exactly one row: beside the entry that claims
      it, or on a row of its own. */
  lemma ShiftRowsExitOnce(filtered: seq<Ponto>, x: Ponto)
    requires UniqueIds(filtered) && x in filtered && x.tipo == Saida
    ensures Count(ShiftRows(filtered), HasExit(x)) == 1
  {
    var entries := EntryRows(filtered, filtered);
    var orphans := OrphanRows(ProcessedExits(filtered), filtered);
    CountPermutation(ShiftRows(filtered), entries + orphans, HasExit(x));
    CountAppend(entries, orphans, HasExit(x));
    EntryRowsCountExit(filtered, filtered, x);
    ClaimsCount(filtered, x);
    OrphanRowsCountExit(ProcessedExits(filtered), filtered, x);
    OccursOnce(filtered, x);
  }

  /** When the list holds exactly one exit of the entry, that exit is the one
      paired with it, and the row's status follows the exit's. */
  lemma SoleExitIsMatched(filtered: seq<Ponto>, e: Ponto, n: Ponto)
    requires n in filtered && n.tipo == Saida && n.relatedId == Some(e.id)
    requires forall l :: l in filtered && IsExitOf(e.id, l) ==> l == n
    ensures EntryRow(filtered, e).exit == Some(n)
    ensures n.status == Pendente ==> EntryRow(filtered, e).status == AguardandoAutorizacao
    ensures n.status == Fechado ==> EntryRow(filtered, e).status == RowFechado
  {
  }

  // ---- submitJustification ------------------------------------------------------

  datatype TargetKind = TargetSaida | TargetEntrada

  /** The record the worker is correcting and the kind of event they add. */
  datatype Target = Target(entryId: string, kind: TargetKind)

  /** The early returns of `submitJustification`, and the exception an invalid
      time raises; in each case nothing is written. */
  datatype SubmitError = NoTarget | NoTime | NotCooperado | EntryNotFound | InvalidTime

  /** `new Date(`${entryDate}T${time}:00`)`: the wall-clock time on the entry's
      UTC calendar date, read as local time in a zone `utcOffset` milliseconds
      ahead of UTC. `None` where the text is not a valid time. */
  function JustifiedTimestamp(entryTs: int, time: string, utcOffset: int): (r: Option<int>)
    ensures r.None? <==> Text.ParseClock(time).None?
    ensures r.Some? && Text.ParseClock(time).value < MillisPerDay ==>
      IsoDay(r.value + utcOffset) == IsoDay(entryTs) && (r.value + utcOffset) % MillisPerDay == Text.ParseClock(time).value
    ensures r.Some? && Text.ParseClock(time).value == MillisPerDay ==>
      IsoDay(r.value + utcOffset) == IsoDay(entryTs) + 1 && (r.value + utcOffset) % MillisPerDay == 0
  {
    match Text.ParseClock(time)
    case None => None
    case Some(ms) =>
      DayAndTime(IsoDay(entryTs), ms);
      Some(IsoDay(entryTs) * MillisPerDay + ms - utcOffset)
  }

  /** A local instant given as a day number and a time on that day splits back
      into the same day and time; "24:00" rolls over to midnight of the next day. */
  lemma DayAndTime(d: int, ms: nat)
    requires ms <= MillisPerDay
    ensures ms < MillisPerDay ==> (d * MillisPerDay + ms) / MillisPerDay == d && (d * MillisPerDay + ms) % MillisPerDay == ms
    ensures ms == MillisPerDay ==> (d * MillisPerDay + ms) / MillisPerDay == d + 1 && (d * MillisPerDay + ms) % MillisPerDay == 0
  {
    if ms == MillisPerDay {
      assert d * MillisPerDay + ms == (d + 1) * MillisPerDay;
    }
  }

  /** In any zone, a time the picker offers lands on the entry's own calendar
      day at exactly that wall-clock time. */
  lemma JustifiedSameDay(entryTs: int, h: nat, m: nat, utcOffset: int)
    requires h < 24 && m < 60
    ensures JustifiedTimestamp(entryTs, Text.FormatClock(h, m), utcOffset).Some?
    ensures var local := JustifiedTimestamp(entryTs, Text.FormatClock(h, m), utcOffset).value + utcOffset;
      IsoDay(local) == IsoDay(entryTs) && local % MillisPerDay == h * Text.MillisPerHour + m * Text.MillisPerMinute
  {
    Text.ClockRoundTrip(h, m);
  }

  /** The correction record: same shift code and place as the entry, waiting
      for approval, linked to the entry. */
  function JustificationPonto(entry: Ponto, c: Cooperado, kind: TargetKind, ts: int,
                              motivo: string, descricao: string, newId: string, now: int): (p: Ponto)
    ensures p.id == newId && p.codigo == entry.codigo && p.timestamp == ts
    ensures p.cooperadoId == c.id && p.cooperadoNome == c.nome
    ensures p.tipo == (if kind == TargetSaida then Saida else Entrada)
    ensures p.local == entry.local && p.hospitalId == entry.hospitalId && p.setorId == entry.setorId
    ensures p.isManual && p.status == Pendente && p.relatedId == Some(entry.id)
    ensures p.observacao.None? && p.validadoPor.None?
    ensures p.justificativa == Some(Justificativa(motivo, Some(descricao), now))
  {
    Ponto(
      id := newId,
      codigo := entry.codigo,
      cooperadoId := c.id,
      cooperadoNome := c.nome,
      timestamp := ts,
      tipo := if kind == TargetSaida then Saida else Entrada,
      local := entry.local,
      hospitalId := entry.hospitalId,
      setorId := entry.setorId,
      observacao := None,
      validadoPor := None,
      isManual := true,
      status := Pendente,
      relatedId := Some(entry.id),
      justificativa := Some(Justificativa(motivo, Some(descricao), now)))
  }

  /** `submitJustification`: the target must be one of the worker's own visible
      records; the correction is appended through `savePonto`. */
  function SubmitJustification(db: Db, session: Option<Cooperado>, target: Option<Target>, time: string,
                               motivo: string, descricao: string, utcOffset: int,
                               newId: string, now: int, stamp: AuditStamp): (r: Result<Db, SubmitError>)
    ensures target.None? ==> r == Err(NoTarget)
    ensures target.Some? && time == "" ==> r == Err(NoTime)
    ensures target.Some? && time != "" && session.None? ==> r == Err(NotCooperado)
    ensures r.Ok? <==>
      && target.Some? && time != "" && session.Some? && session.value.id != ""
      && (exists e :: e in db.pontos && e.id == target.value.entryId && OwnVisible(session.value.id, e))
      && Text.ParseClock(time).Some?
    ensures r.Ok? ==>
      && |r.value.pontos| == |db.pontos| + 1
      && r.value.pontos[..|db.pontos|] == db.pontos
      && var n := r.value.pontos[|db.pontos|];
      && n.id == newId && n.status == Pendente && n.isManual
      && n.cooperadoId == session.value.id && n.relatedId == Some(target.value.entryId)
      && n.tipo == (if target.value.kind == TargetSaida then Saida else Entrada)
      && r.value.audit == LogAudit(db.audit, "REGISTRO_PRODUCAO",
           "Produção (" + TipoLabel(n.tipo) + ") registrada para " + session.value.nome + ". Status: " + StatusLabel(Pendente), stamp)
      && exists e :: e in db.pontos && e.id == target.value.entryId && OwnVisible(session.value.id, e)
           && n == JustificationPonto(e, session.value, target.value.kind,
                     JustifiedTimestamp(e.timestamp, time, utcOffset).value, motivo, descricao, newId, now)
    ensures r.Ok? ==> r.value.(pontos := db.pontos, audit := db.audit) == db
  {
    if target.None? then Err(NoTarget)
    else if time == "" then Err(NoTime)
    else if session.None? then Err(NotCooperado)
    else
      var c := session.value;
      var logs := MirrorLogs(db.pontos, Some(c.id));
      match PontoById(logs, target.value.entryId)
      case None => Err(EntryNotFound)
      case Some(entry) =>
        match JustifiedTimestamp(entry.timestamp, time, utcOffset)
        case None => Err(InvalidTime)
        case Some(ts) =>
          Ok(SavePonto(db, JustificationPonto(entry, c, target.value.kind, ts, motivo, descricao, newId, now), stamp))
  }

  /** A worker's correction of their own entry is stored behind the existing
      records, keeping ids unique when the new id is fresh. */
  lemma SubmitOwnEntry(db: Db, c: Cooperado, k: nat, kind: TargetKind, time: string, motivo: string, descricao: string,
                       utcOffset: int, newId: string, now: int, stamp: AuditStamp)
    requires UniqueIds(db.pontos) && k < |db.pontos|
    requires forall q :: q in db.pontos ==> q.id != newId
    requires OwnVisible(c.id, db.pontos[k]) && c.id != ""
    requires Text.ParseClock(time).Some?
    ensures var r := SubmitJustification(db, Some(c), Some(Target(db.pontos[k].id, kind)), time,
                                         motivo, descricao, utcOffset, newId, now, stamp);
      && r.Ok?
      && r.value.pontos == db.pontos + [r.value.pontos[|db.pontos|]]
      && UniqueIds(r.value.pontos)
      && r.value.pontos[|db.pontos|].relatedId == Some(db.pontos[k].id)
  {
    var r := SubmitJustification(db, Some(c), Some(Target(db.pontos[k].id, kind)), time,
                                 motivo, descricao, utcOffset, newId, now, stamp);
    assert db.pontos[k] in db.pontos;
    var p := r.value.pontos;
    assert p == db.pontos + [p[|db.pontos|]];
    forall i, j | 0 <= i < j < |p| ensures p[i].id != p[j].id {
      if j == |db.pontos| {
        assert p[i] == db.pontos[i];
        assert db.pontos[i] in db.pontos;
      } else {
        assert p[i] == db.pontos[i] && p[j] == db.pontos[j];
      }
    }
  }

  /** The whole correction cycle: a worker justifies the missing exit of their
      open entry; the correction waits in the manager's queue; approving it
      closes both the correction and the entry. */
  lemma JustifyThenApprove(db: Db, c: Cooperado, k: nat, time: string, motivo: string, descricao: string,
                           utcOffset: int, newId: string, now: int, stamp: AuditStamp)
    requires UniqueIds(db.pontos) && k < |db.pontos|
    requires forall q :: q in db.pontos ==> q.id != newId
    requires db.pontos[k].cooperadoId == c.id && c.id != "" && db.pontos[k].id != ""
    requires db.pontos[k].tipo == Entrada && db.pontos[k].status == Aberto
    requires Text.ParseClock(time).Some?
    ensures var r := SubmitJustification(db, Some(c), Some(Target(db.pontos[k].id, TargetSaida)), time,
                                         motivo, descricao, utcOffset, newId, now, stamp);
      && r.Ok?
      && var n := r.value.pontos[|db.pontos|];
      && n in Autorizacao.PendingList(r.value.pontos)
      && var approved := Autorizacao.Approve(r.value, n, true).pontos;
      && approved[k] == db.pontos[k].(status := Fechado)
      && approved[|db.pontos|] == Autorizacao.Approved(n)
  {
    var entry := db.pontos[k];
    SubmitOwnEntry(db, c, k, TargetSaida, time, motivo, descricao, utcOffset, newId, now, stamp);
    var db2 := SubmitJustification(db, Some(c), Some(Target(entry.id, TargetSaida)), time,
                                   motivo, descricao, utcOffset, newId, now, stamp).value;
    var n := db2.pontos[|db.pontos|];
    assert n in db2.pontos;
    Autorizacao.ApproveEffect(db2, |db.pontos|);
    assert db2.pontos[k] == entry;
    assert Autorizacao.ClosesLinked(n, entry);
  }
}
