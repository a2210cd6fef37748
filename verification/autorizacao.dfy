/** The manager's approval queue: corrections waiting in status `Pendente`,
    oldest first, each approved (closing it, and the entry it completes) or
    rejected with a note. The browser's confirm and prompt dialogs become the
    parameters `confirmed` and `reason`. */
module Autorizacao {
  import opened Common
  import opened Types
  import opened Storage
  import Sorting

  predicate IsPendente(p: Ponto) {
    p.status == Pendente
  }

  /** The comparator `a.timestamp - b.timestamp`, as a relation "may come first". */
  predicate ByTime(a: Ponto, b: Ponto) {
    a.timestamp <= b.timestamp
  }

  lemma ByTimeIsTotalPreorder()
    ensures Sorting.TotalPreorder(ByTime)
  {
  }

  /** `loadData`: the pending records, oldest first. */
  function PendingList(pontos: seq<Ponto>): (r: seq<Ponto>)
    ensures forall p :: p in r <==> p in pontos && p.status == Pendente
    ensures multiset(r) == multiset(Filter(pontos, IsPendente))
    ensures forall i, j :: 0 <= i < j < |r| ==> r[i].timestamp <= r[j].timestamp
  {
    ByTimeIsTotalPreorder();
    var pending := Filter(pontos, IsPendente);
    var r := Sorting.SortBy(pending, ByTime);
    assert forall p :: p in r <==> p in pending by {
      forall p ensures p in r <==> p in pending {
        assert p in r <==> p in multiset(r);
      }
    }
    r
  }

  /** Every pending record appears in the queue exactly as often as in the store. */
  lemma PendingListCount(pontos: seq<Ponto>)
    ensures |PendingList(pontos)| == Count(pontos, IsPendente)
  {
    var r := PendingList(pontos);
    assert |r| == |multiset(r)|;
    assert |Filter(pontos, IsPendente)| == |multiset(Filter(pontos, IsPendente))|;
  }

  const Validador: string := "Gestor"

  /** The approved version of a pending record. */
  function Approved(log: Ponto): (a: Ponto)
    ensures a.status == Fechado && a.validadoPor == Some(Validador)
    ensures a.(status := log.status, validadoPor := log.validadoPor) == log
  {
    log.(status := Fechado, validadoPor := Some(Validador))
  }

  /** The approval of `log` must also close `q`: `log` is an exit pointing at
      `q`, and `q` is not closed yet. */
  predicate ClosesLinked(log: Ponto, q: Ponto) {
    Truthy(log.relatedId) && log.tipo == Saida && q.id == log.relatedId.value && q.status != Fechado
  }

  /** Second step of `handleApprove`: for an exit linked to an entry, find that
      entry in the store as it is now and close it unless it is already closed. */
  function CloseLinkedEntry(db: Db, log: Ponto): (r: Db)
    ensures r.(pontos := db.pontos) == db
    ensures |r.pontos| == |db.pontos|
    ensures forall i :: 0 <= i < |db.pontos| ==> r.pontos[i].id == db.pontos[i].id
    ensures forall q :: q in r.pontos ==> q in db.pontos || q.status == Fechado
    ensures !(Truthy(log.relatedId) && log.tipo == Saida) ==> r == db
    ensures Truthy(log.relatedId) && log.tipo == Saida ==>
      && ((forall j :: 0 <= j < |db.pontos| ==> db.pontos[j].id != log.relatedId.value) ==> r == db)
      && forall i :: IsFirstWith(db.pontos, PontoKey, log.relatedId.value, i) ==>
           r.pontos == if db.pontos[i].status != Fechado then db.pontos[i := db.pontos[i].(status := Fechado)] else db.pontos
  {
    if Truthy(log.relatedId) && log.tipo == Saida then
      match PontoById(db.pontos, log.relatedId.value)
      case Some(entry) =>
        if entry.status != Fechado then UpdatePonto(db, entry.(status := Fechado)) else db
      case None => db
    else db
  }

  /** With unique ids, the second step closes exactly the records `ClosesLinked`
      picks out (at most one, by uniqueness). */
  lemma CloseLinkedEntryEffect(db: Db, log: Ponto)
    requires UniqueIds(db.pontos)
    ensures var r := CloseLinkedEntry(db, log).pontos;
      forall j :: 0 <= j < |db.pontos| ==>
        r[j] == if ClosesLinked(log, db.pontos[j]) then db.pontos[j].(status := Fechado) else db.pontos[j]
  {
    var p := db.pontos;
    if Truthy(log.relatedId) && log.tipo == Saida {
      var id := log.relatedId.value;
      match PontoById(p, id)
      case None =>
        forall j | 0 <= j < |p| ensures !ClosesLinked(log, p[j]) {
          assert p[j] in p;
        }
      case Some(entry) =>
        var m :| 0 <= m < |p| && p[m] == entry;
        if entry.status != Fechado {
          UpdatePontoUnique(db, entry.(status := Fechado), m);
        }
    }
  }

  /** `handleApprove`: write the approved record, then close the entry it
      completes. Nothing happens when the manager does not confirm. */
  function Approve(db: Db, log: Ponto, confirmed: bool): (r: Db)
    ensures !confirmed ==> r == db
    ensures r.(pontos := db.pontos) == db
    ensures |r.pontos| == |db.pontos|
    ensures forall i :: 0 <= i < |db.pontos| ==> r.pontos[i].id == db.pontos[i].id
    ensures forall q :: q in r.pontos ==> q in db.pontos || q == Approved(log) || q.status == Fechado
    ensures confirmed ==> forall i :: IsFirstWith(db.pontos, PontoKey, log.id, i) ==> r.pontos[i] == Approved(log)
    ensures forall j :: (0 <= j < |db.pontos| && !IsFirstWith(db.pontos, PontoKey, log.id, j)
      && !(Truthy(log.relatedId) && log.tipo == Saida && IsFirstWith(db.pontos, PontoKey, log.relatedId.value, j))) ==>
        r.pontos[j] == db.pontos[j]
  {
    if !confirmed then db
    else
      var db1 := UpdatePonto(db, Approved(log));
      assert forall j :: (0 <= j < |db.pontos| && !IsFirstWith(db.pontos, PontoKey, log.id, j)
        && !(Truthy(log.relatedId) && log.tipo == Saida && IsFirstWith(db.pontos, PontoKey, log.relatedId.value, j))) ==>
          CloseLinkedEntry(db1, log).pontos[j] == db.pontos[j] by {
        forall j | 0 <= j < |db.pontos| && !IsFirstWith(db.pontos, PontoKey, log.id, j)
          && !(Truthy(log.relatedId) && log.tipo == Saida && IsFirstWith(db.pontos, PontoKey, log.relatedId.value, j))
          ensures CloseLinkedEntry(db1, log).pontos[j] == db.pontos[j]
        {
          ApproveTouchesTwoRecords(db, log, j);
        }
      }
      assert forall i :: IsFirstWith(db.pontos, PontoKey, log.id, i) ==> CloseLinkedEntry(db1, log).pontos[i] == Approved(log) by {
        forall i | IsFirstWith(db.pontos, PontoKey, log.id, i)
          ensures CloseLinkedEntry(db1, log).pontos[i] == Approved(log)
        {
          ApprovedSurvivesClosing(db, log, i);
        }
      }
      CloseLinkedEntry(db1, log)
  }

  /** Lists with the same ids position by position agree on where an id first occurs. */
  lemma SameIdsSameFirst(a: seq<Ponto>, b: seq<Ponto>, id: string, i: int)
    requires |a| == |b| && forall j :: 0 <= j < |a| ==> a[j].id == b[j].id
    ensures IsFirstWith(a, PontoKey, id, i) <==> IsFirstWith(b, PontoKey, id, i)
  {
  }

  /** Where an id occurs at all, it has a first position. */
  lemma FirstWithExists(s: seq<Ponto>, id: string) returns (i: nat)
    requires exists j :: 0 <= j < |s| && s[j].id == id
    ensures IsFirstWith(s, PontoKey, id, i)
  {
    var k :| 0 <= k < |s| && s[k].id == id;
    assert IdIs(id)(s[k]);
    var m := FirstIndex(s, IdIs(id)).value;
    forall j | 0 <= j < m ensures s[j].id != id {
      assert !IdIs(id)(s[j]);
    }
    assert IdIs(id)(s[m]);
    i := m;
  }

  /** An approval rewrites at most two records: the first one with the approved
      id, and the first one with the id of the entry it completes. */
  lemma ApproveTouchesTwoRecords(db: Db, log: Ponto, j: nat)
    requires j < |db.pontos| && !IsFirstWith(db.pontos, PontoKey, log.id, j)
    requires !(Truthy(log.relatedId) && log.tipo == Saida && IsFirstWith(db.pontos, PontoKey, log.relatedId.value, j))
    ensures CloseLinkedEntry(UpdatePonto(db, Approved(log)), log).pontos[j] == db.pontos[j]
  {
    var db1 := UpdatePonto(db, Approved(log));
    if exists m :: 0 <= m < |db.pontos| && db.pontos[m].id == log.id {
      var i := FirstWithExists(db.pontos, log.id);
      assert db1.pontos == db.pontos[i := Approved(log)];
    }
    assert db1.pontos[j] == db.pontos[j];
    if Truthy(log.relatedId) && log.tipo == Saida {
      var eid := log.relatedId.value;
      if exists m :: 0 <= m < |db1.pontos| && db1.pontos[m].id == eid {
        var m := FirstWithExists(db1.pontos, eid);
        SameIdsSameFirst(db1.pontos, db.pontos, eid, m);
        assert m != j;
      }
    }
  }

  /** The second step of an approval leaves the freshly approved record as it is:
      it either touches another position or finds that record already closed. */
  lemma ApprovedSurvivesClosing(db: Db, log: Ponto, i: nat)
    requires IsFirstWith(db.pontos, PontoKey, log.id, i)
    ensures CloseLinkedEntry(UpdatePonto(db, Approved(log)), log).pontos[i] == Approved(log)
  {
    var db1 := UpdatePonto(db, Approved(log));
    assert db1.pontos == db.pontos[i := Approved(log)];
    if Truthy(log.relatedId) && log.tipo == Saida {
      var eid := log.relatedId.value;
      match FirstIndex(db1.pontos, IdIs(eid))
      case None =>
        forall j | 0 <= j < |db1.pontos| ensures db1.pontos[j].id != eid {
          assert !IdIs(eid)(db1.pontos[j]);
        }
      case Some(m) =>
        assert IsFirstWith(db1.pontos, PontoKey, eid, m) by {
          forall j | 0 <= j < m ensures db1.pontos[j].id != eid {
            assert !IdIs(eid)(db1.pontos[j]);
          }
        }
    }
  }

  /** With unique ids, approving the record at `k` closes it, closes the
      entry it completes when that entry is still open, and leaves every other
      record as it was. */
  lemma ApproveEffect(db: Db, k: nat)
    requires UniqueIds(db.pontos) && k < |db.pontos|
    ensures var log := db.pontos[k];
      var r := Approve(db, log, true).pontos;
      && UniqueIds(r)
      && r[k] == Approved(log)
      && forall j :: 0 <= j < |db.pontos| && j != k ==>
           r[j] == if ClosesLinked(log, db.pontos[j]) then db.pontos[j].(status := Fechado) else db.pontos[j]
  {
    var log := db.pontos[k];
    var db1 := UpdatePonto(db, Approved(log));
    UpdatePontoUnique(db, Approved(log), k);
    CloseLinkedEntryEffect(db1, log);
    var r := Approve(db, log, true).pontos;
    assert r == CloseLinkedEntry(db1, log).pontos;
    assert !ClosesLinked(log, db1.pontos[k]);
    forall j | 0 <= j < |db.pontos| && j != k
      ensures r[j] == if ClosesLinked(log, db.pontos[j]) then db.pontos[j].(status := Fechado) else db.pontos[j]
    {
      assert db1.pontos[j] == db.pontos[j];
    }
  }

  /** After an approval the record is no longer waiting, and the queue keeps
      every other pending record except the entry the approval closed. */
  lemma ApproveLeavesQueue(db: Db, k: nat)
    requires UniqueIds(db.pontos) && k < |db.pontos|
    ensures var log := db.pontos[k];
      var after := PendingList(Approve(db, log, true).pontos);
      && (forall q :: q in after ==> q.id != log.id)
      && forall q :: q in PendingList(db.pontos) && q.id != log.id && !ClosesLinked(log, q) ==> q in after
  {
    ApproveEffect(db, k);
    QueueAfterApproval(db.pontos, Approve(db, db.pontos[k], true).pontos, k);
  }

  /** The queue of a list changed as an approval of position `k` changes it. */
  lemma QueueAfterApproval(p: seq<Ponto>, r: seq<Ponto>, k: nat)
    requires UniqueIds(p) && k < |p| && |r| == |p|
    requires r[k] == Approved(p[k])
    requires forall j :: 0 <= j < |p| && j != k ==>
      r[j] == if ClosesLinked(p[k], p[j]) then p[j].(status := Fechado) else p[j]
    ensures forall q :: q in PendingList(r) ==> q.id != p[k].id
    ensures forall q :: q in PendingList(p) && q.id != p[k].id && !ClosesLinked(p[k], q) ==> q in PendingList(r)
  {
    var log := p[k];
    forall q | q in r && q.status == Pendente ensures q.id != log.id {
      var j :| 0 <= j < |r| && r[j] == q;
      assert j != k;
      assert q.id == p[j].id;
    }
    forall q | q in PendingList(p) && q.id != log.id && !ClosesLinked(log, q) ensures q in r {
      var j :| 0 <= j < |p| && p[j] == q;
      assert r[j] == q;
    }
  }

  /** `observacao` of a rejected record; an empty reason reads "Sem motivo". */
  function RejectionNote(reason: string): (note: string)
    ensures |note| > |"Rejeitado pelo Gestor: "|
    ensures note[..|"Rejeitado pelo Gestor: "|] == "Rejeitado pelo Gestor: "
    ensures reason != "" ==> note[|"Rejeitado pelo Gestor: "|..] == reason
    ensures reason == "" ==> note == "Rejeitado pelo Gestor: Sem motivo"
  {
    "Rejeitado pelo Gestor: " + (if reason == "" then "Sem motivo" else reason)
  }

  /** `handleReject`: a cancelled prompt (`None`) changes nothing; otherwise the
      record is stored as rejected with the note. */
  function Reject(db: Db, log: Ponto, reason: Option<string>): (r: Db)
    ensures reason.None? ==> r == db
    ensures r.(pontos := db.pontos) == db
    ensures |r.pontos| == |db.pontos|
    ensures forall i :: 0 <= i < |db.pontos| ==> r.pontos[i].id == db.pontos[i].id
    ensures (forall j :: 0 <= j < |db.pontos| ==> db.pontos[j].id != log.id) ==> r == db
    ensures reason.Some? ==> forall i :: IsFirstWith(db.pontos, PontoKey, log.id, i) ==>
      r.pontos == db.pontos[i := log.(status := Rejeitado, observacao := Some(RejectionNote(reason.value)))]
  {
    match reason
    case None => db
    case Some(s) => UpdatePonto(db, log.(status := Rejeitado, observacao := Some(RejectionNote(s))))
  }

  /** A rejected record leaves the queue and everything else stays queued. */
  lemma RejectLeavesQueue(db: Db, k: nat, reason: string)
    requires UniqueIds(db.pontos) && k < |db.pontos|
    ensures var log := db.pontos[k];
      var after := PendingList(Reject(db, log, Some(reason)).pontos);
      forall q :: q in after <==> q in PendingList(db.pontos) && q.id != log.id
  {
    var log := db.pontos[k];
    var r := Reject(db, log, Some(reason)).pontos;
    UpdatePontoUnique(db, log.(status := Rejeitado, observacao := Some(RejectionNote(reason))), k);
    forall q ensures q in r && q.status == Pendente <==> q in db.pontos && q.status == Pendente && q.id != log.id {
      if q in r && q.status == Pendente {
        var j :| 0 <= j < |r| && r[j] == q;
        assert j != k;
        assert db.pontos[j] == q;
      }
      if q in db.pontos && q.status == Pendente && q.id != log.id {
        var j :| 0 <= j < |db.pontos| && db.pontos[j] == q;
        assert r[j] == q;
      }
    }
  }
}
