/** The clock-in kiosk: after a successful fingerprint capture it decides
    whether the scan is an entry or an exit, pairs an exit with the open entry
    it closes, and writes the new event. The random shift code, the new UUID
    and the clock are parameters. */
module PontoMachine {
  import opened Common
  import opened Types
  import opened Storage
  import Text

  datatype ScanError = HospitalNaoSelecionado | SetorNaoSelecionado | NenhumCooperado

  /** The identification placeholder: the first worker with an enrolled
      fingerprint, else the first worker at all (no matching takes place). */
  function Identify(cooperados: seq<Cooperado>): (r: Option<Cooperado>)
    ensures r.None? <==> |cooperados| == 0
    ensures r.Some? ==> r.value in cooperados
    ensures r.Some? && |r.value.biometrias| == 0 ==>
      r.value == cooperados[0] && forall c :: c in cooperados ==> |c.biometrias| == 0
    ensures r.Some? && |r.value.biometrias| > 0 ==>
      exists i :: 0 <= i < |cooperados| && cooperados[i] == r.value && forall j :: 0 <= j < i ==> |cooperados[j].biometrias| == 0
  {
    match Find(cooperados, (c: Cooperado) => |c.biometrias| > 0)
    case Some(c) => Some(c)
    case None => if |cooperados| > 0 then Some(cooperados[0]) else None
  }

  /** The event a scan records, given the worker's last qualifying event:
      entry and exit alternate, and anything else starts a new entry. */
  function NextTipo(last: Option<Ponto>): (t: Tipo)
    ensures t == Saida <==> last.Some? && last.value.tipo == Entrada
    ensures t == Entrada || t == Saida
  {
    if last.Some? && last.value.tipo == Entrada then Saida else Entrada
  }

  /** `Math.floor(100000 + Math.random() * 900000)` for a draw `rnd` in [0, 1). */
  function Codigo(rnd: real): (n: nat)
    requires 0.0 <= rnd < 1.0
    ensures 100000 <= n <= 999999
  {
    (100000.0 + rnd * 900000.0).Floor
  }

  /** The fresh shift code as text: always six decimal digits. */
  function CodigoText(rnd: real): (s: string)
    requires 0.0 <= rnd < 1.0
    ensures |s| == 6 && Text.AllDigits(s)
    ensures Text.DecimalValue(s) == Codigo(rnd)
  {
    var n := Codigo(rnd);
    assert Text.Pow10(5) == 100000 && Text.Pow10(6) == 1000000;
    Text.NatToStringLength(n, 6);
    Text.DecimalRoundTrip(n);
    Text.NatToString(n)
  }

  function HospitalById(hospitais: seq<Hospital>, id: string): (r: Option<Hospital>)
    ensures r.Some? ==> r.value in hospitais && r.value.id == id
    ensures r.None? <==> forall h :: h in hospitais ==> h.id != id
  {
    Find(hospitais, (h: Hospital) => h.id == id)
  }

  function SetorById(setores: seq<Setor>, id: string): (r: Option<Setor>)
    ensures r.Some? ==> r.value in setores && r.value.id == id
    ensures r.None? <==> forall s :: s in setores ==> s.id != id
  {
    Find(setores, (s: Setor) => s.id == id)
  }

  /** `h?.nome || ''` for the selected hospital. */
  function HospitalNome(hospitais: seq<Hospital>, hospId: string): string {
    match HospitalById(hospitais, hospId)
    case Some(h) => h.nome
    case None => ""
  }

  /** `s?.nome || ''` for the selected sector of the selected hospital. */
  function SetorNome(hospitais: seq<Hospital>, hospId: string, setId: string): string {
    match HospitalById(hospitais, hospId)
    case None => ""
    case Some(h) =>
      match SetorById(h.setores, setId)
      case Some(s) => s.nome
      case None => ""
  }

  /** The location label `hospital - sector`; splitting it on the separator
      gives the two names back when neither gets in the separator's way. */
  function LocalLabel(hospitais: seq<Hospital>, hospId: string, setId: string): (l: string)
    ensures var hn := HospitalNome(hospitais, hospId);
      var sn := SetorNome(hospitais, hospId, setId);
      && |l| == |hn| + |Text.Sep| + |sn|
      && l[..|hn|] == hn && l[|hn| + |Text.Sep|..] == sn && Text.SepAt(l, |hn|)
      && (!Text.HasSep(hn + Text.Sep[..2]) && !Text.HasSep(sn) ==> Text.Split(l) == [hn, sn])
  {
    var hn := HospitalNome(hospitais, hospId);
    var sn := SetorNome(hospitais, hospId, setId);
    var l := hn + Text.Sep + sn;
    assert l[|hn|..|hn| + |Text.Sep|] == Text.Sep;
    assert !Text.HasSep(hn + Text.Sep[..2]) && !Text.HasSep(sn) ==> Text.Split(l) == [hn, sn] by {
      if !Text.HasSep(hn + Text.Sep[..2]) && !Text.HasSep(sn) {
        Text.SplitTwo(hn, sn);
      }
    }
    l
  }

  /** The scan closes the worker's open entry: an exit after an entry still `Aberto`. */
  predicate ClosesEntry(tipo: Tipo, last: Option<Ponto>) {
    tipo == Saida && last.Some? && last.value.tipo == Entrada && last.value.status == Aberto
  }

  /** The record `registerPontoImmediate` builds. */
  function NewPonto(hospitais: seq<Hospital>, c: Cooperado, tipo: Tipo, hospId: string, setId: string,
                    last: Option<Ponto>, rnd: real, newId: string, now: int): (p: Ponto)
    requires 0.0 <= rnd < 1.0
    ensures p.id == newId && p.timestamp == now && p.tipo == tipo
    ensures p.cooperadoId == c.id && p.cooperadoNome == c.nome
    ensures p.hospitalId == Some(hospId) && p.setorId == Some(setId)
    ensures !p.isManual && p.observacao.None? && p.validadoPor.None? && p.justificativa.None?
    ensures p.status == (if tipo == Saida then Fechado else Aberto)
    ensures ClosesEntry(tipo, last) ==> p.codigo == last.value.codigo && p.relatedId == Some(last.value.id)
    ensures !ClosesEntry(tipo, last) ==>
      && p.relatedId.None?
      && |p.codigo| == 6 && Text.AllDigits(p.codigo) && 100000 <= Text.DecimalValue(p.codigo) <= 999999
    ensures p.local == LocalLabel(hospitais, hospId, setId)
  {
    var closes := ClosesEntry(tipo, last);
    Ponto(
      id := newId,
      codigo := if closes then last.value.codigo else CodigoText(rnd),
      cooperadoId := c.id,
      cooperadoNome := c.nome,
      timestamp := now,
      tipo := tipo,
      local := LocalLabel(hospitais, hospId, setId),
      hospitalId := Some(hospId),
      setorId := Some(setId),
      observacao := None,
      validadoPor := None,
      isManual := false,
      status := if tipo == Saida then Fechado else Aberto,
      relatedId := if closes then Some(last.value.id) else None,
      justificativa := None)
  }

  /** `registerPontoImmediate`: close the open entry (one `updatePonto`) when
      the scan is its exit, then save the new record (one `savePonto`). */
  function Register(db: Db, c: Cooperado, tipo: Tipo, hospId: string, setId: string,
                    last: Option<Ponto>, rnd: real, newId: string, now: int, stamp: AuditStamp): (r: Db)
    requires 0.0 <= rnd < 1.0
    ensures |r.pontos| == |db.pontos| + 1
    ensures r.pontos[|db.pontos|] == NewPonto(db.hospitais, c, tipo, hospId, setId, last, rnd, newId, now)
    ensures !ClosesEntry(tipo, last) ==> r.pontos[..|db.pontos|] == db.pontos
    ensures ClosesEntry(tipo, last) ==> r.pontos[..|db.pontos|] == UpdatePonto(db, last.value.(status := Fechado)).pontos
    ensures forall i :: 0 <= i < |db.pontos| ==> r.pontos[i].id == db.pontos[i].id
    ensures r.audit == LogAudit(db.audit, "REGISTRO_PRODUCAO",
      "Produção (" + TipoLabel(tipo) + ") registrada para " + c.nome + ". Status: "
        + StatusLabel(if tipo == Saida then Fechado else Aberto), stamp)
    ensures r.(pontos := db.pontos, audit := db.audit) == db
  {
    var p := NewPonto(db.hospitais, c, tipo, hospId, setId, last, rnd, newId, now);
    var db1 := if ClosesEntry(tipo, last) then UpdatePonto(db, last.value.(status := Fechado)) else db;
    SavePonto(db1, p, stamp)
  }

  /** `handleIdentification` followed by the registration: both selections are
      mandatory and checked before anything else; no worker means no event. */
  function Scan(db: Db, hospId: string, setId: string, rnd: real, newId: string, now: int, stamp: AuditStamp): (r: Result<Db, ScanError>)
    requires 0.0 <= rnd < 1.0
    ensures hospId == "" ==> r == Err(HospitalNaoSelecionado)
    ensures hospId != "" && setId == "" ==> r == Err(SetorNaoSelecionado)
    ensures hospId != "" && setId != "" && |db.cooperados| == 0 ==> r == Err(NenhumCooperado)
    ensures r.Ok? <==> hospId != "" && setId != "" && |db.cooperados| > 0
    ensures r.Ok? ==>
      && |r.value.pontos| == |db.pontos| + 1
      && var p := r.value.pontos[|db.pontos|];
      && p.id == newId && p.timestamp == now && p.cooperadoId == Identify(db.cooperados).value.id
      && p.tipo == NextTipo(LastPonto(db.pontos, p.cooperadoId))
    ensures r.Ok? ==>
      var c := Identify(db.cooperados).value;
      var last := LastPonto(db.pontos, c.id);
      var tipo := NextTipo(last);
      && r.value.pontos[|db.pontos|] == NewPonto(db.hospitais, c, tipo, hospId, setId, last, rnd, newId, now)
      && (!ClosesEntry(tipo, last) ==> r.value.pontos[..|db.pontos|] == db.pontos)
      && (ClosesEntry(tipo, last) ==> r.value.pontos[..|db.pontos|] == UpdatePonto(db, last.value.(status := Fechado)).pontos)
      && r.value.audit == LogAudit(db.audit, "REGISTRO_PRODUCAO",
           "Produção (" + TipoLabel(tipo) + ") registrada para " + c.nome + ". Status: "
             + StatusLabel(if tipo == Saida then Fechado else Aberto), stamp)
      && r.value.(pontos := db.pontos, audit := db.audit) == db
  {
    if hospId == "" then Err(HospitalNaoSelecionado)
    else if setId == "" then Err(SetorNaoSelecionado)
    else
      match Identify(db.cooperados)
      case None => Err(NenhumCooperado)
      case Some(c) =>
        var last := LastPonto(db.pontos, c.id);
        Ok(Register(db, c, NextTipo(last), hospId, setId, last, rnd, newId, now, stamp))
  }

  /** With a clock that moves forward, consecutive scans of the same worker
      alternate between entry and exit. */
  lemma ScanAlternates(db: Db, hospId: string, setId: string, rnd: real, newId: string, now: int, stamp: AuditStamp)
    requires 0.0 <= rnd < 1.0
    requires hospId != "" && setId != "" && |db.cooperados| > 0
    requires forall q :: q in db.pontos && q.cooperadoId == Identify(db.cooperados).value.id ==> q.timestamp < now
    ensures var c := Identify(db.cooperados).value;
      var before := NextTipo(LastPonto(db.pontos, c.id));
      var after := NextTipo(LastPonto(Scan(db, hospId, setId, rnd, newId, now, stamp).value.pontos, c.id));
      after == if before == Entrada then Saida else Entrada
  {
    var c := Identify(db.cooperados).value;
    var last := LastPonto(db.pontos, c.id);
    var tipo := NextTipo(last);
    var r := Scan(db, hospId, setId, rnd, newId, now, stamp).value;
    var p := r.pontos[|db.pontos|];
    var prefix := r.pontos[..|db.pontos|];
    assert r.pontos == prefix + [p];
    forall q | q in prefix && q.cooperadoId == c.id
      ensures q.timestamp < now
    {
      if ClosesEntry(tipo, last) {
        assert q in db.pontos || q == last.value.(status := Fechado);
      }
    }
    LastPontoAppendNewest(prefix, p);
  }

  /** Registering the exit of an open entry, with unique ids and a fresh
      UUID: the entry is closed where it stands, nothing else before the new
      record changes, and ids stay unique. */
  lemma RegisterClosesEntry(db: Db, c: Cooperado, hospId: string, setId: string,
                            last: Option<Ponto>, rnd: real, newId: string, now: int, stamp: AuditStamp, k: nat)
    requires 0.0 <= rnd < 1.0
    requires ClosesEntry(Saida, last)
    requires UniqueIds(db.pontos) && forall q :: q in db.pontos ==> q.id != newId
    requires k < |db.pontos| && db.pontos[k] == last.value
    ensures var r := Register(db, c, Saida, hospId, setId, last, rnd, newId, now, stamp).pontos;
      && UniqueIds(r)
      && r[k] == last.value.(status := Fechado)
      && forall j :: 0 <= j < |db.pontos| && j != k ==> r[j] == db.pontos[j]
  {
    var closed := last.value.(status := Fechado);
    var n := |db.pontos|;
    var r := Register(db, c, Saida, hospId, setId, last, rnd, newId, now, stamp).pontos;
    UpdatePontoUnique(db, closed, k);
    var prefix := r[..n];
    assert prefix == db.pontos[k := closed];
    assert r == prefix + [r[n]];
    forall q | q in prefix ensures q.id != r[n].id {
      var i :| 0 <= i < n && prefix[i] == q;
      assert q.id == db.pontos[i].id;
      assert db.pontos[i] in db.pontos;
    }
    AppendFreshKeepsUnique(prefix, r[n]);
  }

  /** A scan that closes the open entry, with unique ids and a fresh UUID:
      the exit joins the entry's shift, the entry is closed in place and no other
      record changes. */
  lemma ScanClosesOpenEntry(db: Db, hospId: string, setId: string, rnd: real, newId: string, now: int, stamp: AuditStamp)
    requires 0.0 <= rnd < 1.0
    requires hospId != "" && setId != "" && |db.cooperados| > 0
    requires UniqueIds(db.pontos) && forall q :: q in db.pontos ==> q.id != newId
    requires var last := LastPonto(db.pontos, Identify(db.cooperados).value.id);
      last.Some? && last.value.tipo == Entrada && last.value.status == Aberto
    ensures var entry := LastPonto(db.pontos, Identify(db.cooperados).value.id).value;
      var r := Scan(db, hospId, setId, rnd, newId, now, stamp).value.pontos;
      var exit := r[|db.pontos|];
      && exit.tipo == Saida && exit.status == Fechado
      && exit.codigo == entry.codigo && exit.relatedId == Some(entry.id)
      && UniqueIds(r)
      && exists k :: 0 <= k < |db.pontos| && db.pontos[k] == entry
           && r[k] == entry.(status := Fechado)
           && forall j :: 0 <= j < |db.pontos| && j != k ==> r[j] == db.pontos[j]
  {
    var c := Identify(db.cooperados).value;
    var last := LastPonto(db.pontos, c.id);
    var k :| 0 <= k < |db.pontos| && db.pontos[k] == last.value;
    RegisterClosesEntry(db, c, hospId, setId, last, rnd, newId, now, stamp, k);
    assert Scan(db, hospId, setId, rnd, newId, now, stamp).value
      == Register(db, c, Saida, hospId, setId, last, rnd, newId, now, stamp);
  }
}
