/** The record store. Each list the application keeps in browser storage is a
    field of `Db`; every store operation is a pure transition from one `Db` to
    the next. What an audit entry takes from its surroundings (a fresh UUID,
    the clock, the logged-in user) arrives as an `AuditStamp`. */
module Storage {
  import opened Common
  import opened Types
  import Sorting

  /** How many audit entries are kept, newest first. */
  const AuditCapacity: nat := 100

  datatype AuditStamp = AuditStamp(id: string, timestamp: int, user: string)

  datatype Db = Db(
    pontos: seq<Ponto>,
    audit: seq<AuditLog>,
    categorias: seq<string>,
    cooperados: seq<Cooperado>,
    hospitais: seq<Hospital>,
    managers: seq<Manager>)

  /** The name an audit entry is filed under: the session's manager user name,
      else its hospital access code, else its worker registration number, else
      "SYSTEM". */
  function SessionUser(username: Option<string>, usuarioAcesso: Option<string>, matricula: Option<string>): (u: string)
    ensures u != ""
    ensures (forall o :: o in [username, usuarioAcesso, matricula] ==> !Truthy(o)) ==> u == "SYSTEM"
    ensures u != "SYSTEM" ==> exists o :: o in [username, usuarioAcesso, matricula] && Truthy(o) && u == o.value
    ensures Truthy(username) ==> u == username.value
    ensures !Truthy(username) && Truthy(usuarioAcesso) ==> u == usuarioAcesso.value
    ensures !Truthy(username) && !Truthy(usuarioAcesso) && Truthy(matricula) ==> u == matricula.value
  {
    if Truthy(username) then username.value
    else if Truthy(usuarioAcesso) then usuarioAcesso.value
    else if Truthy(matricula) then matricula.value
    else "SYSTEM"
  }

  /** `logAudit`: the new entry goes first and the list is cut to `AuditCapacity`. */
  function LogAudit(logs: seq<AuditLog>, action: string, details: string, stamp: AuditStamp): (r: seq<AuditLog>)
    ensures |r| == Min(|logs| + 1, AuditCapacity)
    ensures r[0] == AuditLog(stamp.id, action, details, stamp.timestamp, stamp.user)
    ensures forall i :: 1 <= i < |r| ==> r[i] == logs[i - 1]
  {
    ([AuditLog(stamp.id, action, details, stamp.timestamp, stamp.user)] + logs)[..Min(|logs| + 1, AuditCapacity)]
  }

  /** Two entries logged in a row appear newest first, ahead of the older ones,
      and the history never grows beyond its capacity. */
  lemma LogAuditTwice(logs: seq<AuditLog>, a1: string, d1: string, s1: AuditStamp, a2: string, d2: string, s2: AuditStamp)
    ensures var r := LogAudit(LogAudit(logs, a1, d1, s1), a2, d2, s2);
      && |r| == Min(|logs| + 2, AuditCapacity)
      && r[0].id == s2.id && r[1].id == s1.id
      && forall i :: 2 <= i < |r| ==> r[i] == logs[i - 2]
  {
  }

  function Audit(db: Db, action: string, details: string, stamp: AuditStamp): Db {
    db.(audit := LogAudit(db.audit, action, details, stamp))
  }

  // ---- generic list updates -------------------------------------------------

  /** `i` is the position `findIndex` reports for key `k`. */
  predicate IsFirstWith<T>(s: seq<T>, key: T -> string, k: string, i: int) {
    0 <= i < |s| && key(s[i]) == k && forall j :: 0 <= j < i ==> key(s[j]) != k
  }

  /** `list[list.findIndex(x => key(x) === key(item))] = item` when there is such
      an index; the list is left as it is otherwise. */
  function ReplaceFirst<T>(s: seq<T>, item: T, key: T -> string): (r: seq<T>)
    ensures |r| == |s|
    ensures forall x :: x in r ==> x in s || x == item
    ensures (forall j :: 0 <= j < |s| ==> key(s[j]) != key(item)) ==> r == s
    ensures forall i :: IsFirstWith(s, key, key(item), i) ==> r == s[i := item]
  {
    match FirstIndex(s, (x: T) => key(x) == key(item))
    case None => s
    case Some(i) => s[i := item]
  }

  /** The upsert of `saveCooperado`, `saveManager` and `saveHospital`: replace
      the first record with the same key, else append. */
  function Upsert<T>(s: seq<T>, item: T, key: T -> string): (r: seq<T>)
    ensures item in r
    ensures |s| <= |r| <= |s| + 1
    ensures (forall j :: 0 <= j < |s| ==> key(s[j]) != key(item)) ==> r == s + [item]
    ensures forall i :: IsFirstWith(s, key, key(item), i) ==> r == s[i := item]
  {
    match FirstIndex(s, (x: T) => key(x) == key(item))
    case None => s + [item]
    case Some(i) =>
      assert s[i := item][i] == item;
      s[i := item]
  }

  predicate UniqueKeys<T>(s: seq<T>, key: T -> string) {
    forall i, j :: 0 <= i < j < |s| ==> key(s[i]) != key(s[j])
  }

  /** Upserting keeps keys unique and leaves exactly one record under the key. */
  lemma UpsertKeepsKeysUnique<T>(s: seq<T>, item: T, key: T -> string)
    requires UniqueKeys(s, key)
    ensures UniqueKeys(Upsert(s, item, key), key)
    ensures forall x :: x in Upsert(s, item, key) && key(x) == key(item) ==> x == item
  {
    var r := Upsert(s, item, key);
    match FirstIndex(s, (x: T) => key(x) == key(item))
    case None =>
      assert r == s + [item];
    case Some(i) =>
      assert r == s[i := item];
      forall x | x in r && key(x) == key(item) ensures x == item {
        var k :| 0 <= k < |r| && r[k] == x;
      }
  }

  /** Saving the same record twice is the same as saving it once. */
  lemma UpsertIdempotent<T>(s: seq<T>, item: T, key: T -> string)
    ensures Upsert(Upsert(s, item, key), item, key) == Upsert(s, item, key)
  {
    var r := Upsert(s, item, key);
    match FirstIndex(s, (x: T) => key(x) == key(item))
    case None =>
      assert r == s + [item];
      assert IsFirstWith(r, key, key(item), |s|);
      assert r == r[|s| := item];
    case Some(i) =>
      assert r == s[i := item];
      assert IsFirstWith(r, key, key(item), i);
      assert r == r[i := item];
  }

  // ---- clock events -----------------------------------------------------------

  function IdIs(id: string): Ponto -> bool {
    (p: Ponto) => p.id == id
  }

  function PontoKey(p: Ponto): string {
    p.id
  }

  /** `savePonto`: the list is read, the record pushed at the end and an audit entry filed. */
  function SavePonto(db: Db, p: Ponto, stamp: AuditStamp): (r: Db)
    ensures |r.pontos| == |db.pontos| + 1
    ensures r.pontos[..|db.pontos|] == db.pontos && r.pontos[|db.pontos|] == p
    ensures r.audit == LogAudit(db.audit, "REGISTRO_PRODUCAO",
      "Produção (" + TipoLabel(p.tipo) + ") registrada para " + p.cooperadoNome + ". Status: " + StatusLabel(p.status), stamp)
    ensures r.(pontos := db.pontos, audit := db.audit) == db
  {
    Audit(db.(pontos := db.pontos + [p]), "REGISTRO_PRODUCAO",
      "Produção (" + TipoLabel(p.tipo) + ") registrada para " + p.cooperadoNome + ". Status: " + StatusLabel(p.status), stamp)
  }

  /** `updatePonto`: the first record with the same id is replaced in place;
      without such a record nothing is written. No audit entry. */
  function UpdatePonto(db: Db, p: Ponto): (r: Db)
    ensures |r.pontos| == |db.pontos|
    ensures forall q :: q in r.pontos ==> q in db.pontos || q == p
    ensures forall i :: 0 <= i < |db.pontos| ==> r.pontos[i].id == db.pontos[i].id
    ensures (forall j :: 0 <= j < |db.pontos| ==> db.pontos[j].id != p.id) ==> r == db
    ensures forall i :: IsFirstWith(db.pontos, PontoKey, p.id, i) ==> r.pontos == db.pontos[i := p]
    ensures r.(pontos := db.pontos) == db
  {
    db.(pontos := ReplaceFirst(db.pontos, p, PontoKey))
  }

  /** With unique ids, an update changes the one record with that id and nothing else. */
  lemma UpdatePontoUnique(db: Db, p: Ponto, i: nat)
    requires UniqueIds(db.pontos)
    requires i < |db.pontos| && db.pontos[i].id == p.id
    ensures UpdatePonto(db, p).pontos == db.pontos[i := p]
    ensures UniqueIds(UpdatePonto(db, p).pontos)
  {
    var r := UpdatePonto(db, p).pontos;
    assert forall j :: 0 <= j < i ==> db.pontos[j].id != p.id;
    assert forall k :: 0 <= k < |r| ==> r[k].id == db.pontos[k].id;
  }

  /** Appending a record whose id is new keeps the ids unique. */
  lemma AppendFreshKeepsUnique(s: seq<Ponto>, p: Ponto)
    requires UniqueIds(s) && forall q :: q in s ==> q.id != p.id
    ensures UniqueIds(s + [p])
  {
    var t := s + [p];
    forall i, j | 0 <= i < j < |t| ensures t[i].id != t[j].id {
      if j == |s| {
        assert t[i] == s[i] && s[i] in s;
      } else {
        assert t[i] == s[i] && t[j] == s[j];
      }
    }
  }

  /** Dropping records never makes two ids collide. */
  lemma {:induction false} FilterKeepsUniqueIds(s: seq<Ponto>, keep: Ponto -> bool)
    requires UniqueIds(s)
    ensures UniqueIds(Filter(s, keep))
  {
    if |s| > 0 {
      var t := s[1..];
      assert UniqueIds(t) by {
        forall i, j | 0 <= i < j < |t| ensures t[i].id != t[j].id {
          assert t[i] == s[i + 1] && t[j] == s[j + 1];
        }
      }
      FilterKeepsUniqueIds(t, keep);
      if keep(s[0]) {
        var ft := Filter(t, keep);
        forall q | q in ft ensures q.id != s[0].id {
          var j :| 0 <= j < |t| && t[j] == q;
          assert s[j + 1] == q;
        }
        var u := [s[0]] + ft;
        forall i, j | 0 <= i < j < |u| ensures u[i].id != u[j].id {
          if i == 0 {
            assert u[j] == ft[j - 1] && ft[j - 1] in ft;
          } else {
            assert u[i] == ft[i - 1] && u[j] == ft[j - 1];
          }
        }
        assert Filter(s, keep) == u;
      }
    }
  }

  /** `list.find(p => p.id === id)`. */
  function PontoById(pontos: seq<Ponto>, id: string): (r: Option<Ponto>)
    ensures r.Some? ==> r.value in pontos && r.value.id == id
    ensures r.None? <==> forall p :: p in pontos ==> p.id != id
    ensures UniqueIds(pontos) ==> forall i :: 0 <= i < |pontos| && pontos[i].id == id ==> r == Some(pontos[i])
  {
    var r := Find(pontos, IdIs(id));
    assert r.Some? ==> exists i :: 0 <= i < |pontos| && pontos[i] == r.value && forall j :: 0 <= j < i ==> pontos[j].id != id;
    r
  }

  /** The entry an exit points at is set back to `Aberto` (the first record with that id). */
  function Reopen(pontos: seq<Ponto>, entryId: string): (r: seq<Ponto>)
    ensures |r| == |pontos|
    ensures forall i :: 0 <= i < |pontos| ==> r[i].id == pontos[i].id
    ensures forall i :: 0 <= i < |pontos| ==>
      r[i] == if IsFirstWith(pontos, PontoKey, entryId, i) then pontos[i].(status := Aberto) else pontos[i]
  {
    match FirstIndex(pontos, IdIs(entryId))
    case None => pontos
    case Some(k) => pontos[k := pontos[k].(status := Aberto)]
  }

  /** What keeps a record alive when the entry `id` is deleted: a different id,
      and no link to the deleted entry. */
  function SurvivesEntryDeletion(id: string): Ponto -> bool {
    (p: Ponto) => p.id != id && p.relatedId != Some(id)
  }

  function IdIsNot(id: string): Ponto -> bool {
    (p: Ponto) => p.id != id
  }

  /** The cascade of `deletePonto` on the list alone; None when no record has
      the id (nothing is written). The first record with the id decides:
      an ENTRADA goes together with every record linked to it, a SAIDA reopens
      its entry and goes alone, any other type leaves the list as it is. */
  function DeleteCascade(pontos: seq<Ponto>, id: string): (r: Option<seq<Ponto>>)
    ensures r.None? <==> forall p :: p in pontos ==> p.id != id
    ensures r.Some? ==> PontoById(pontos, id).Some?
    ensures r.Some? && PontoById(pontos, id).value.tipo == Entrada ==>
      forall p :: multiset(r.value)[p] == if p.id != id && p.relatedId != Some(id) then multiset(pontos)[p] else 0
    ensures r.Some? && PontoById(pontos, id).value.tipo == Saida ==>
      && |r.value| <= |pontos|
      && forall p :: p in r.value ==> p.id != id
    ensures r.Some? && PontoById(pontos, id).value.tipo in {IntervaloIda, IntervaloVolta} ==> r.value == pontos
  {
    match PontoById(pontos, id)
    case None => None
    case Some(target) =>
      if target.tipo == Entrada then
        FilterMultiset(pontos, SurvivesEntryDeletion(id));
        Some(Filter(pontos, SurvivesEntryDeletion(id)))
      else if target.tipo == Saida then
        Some(Filter(ReopenLinked(pontos, target), IdIsNot(id)))
      else
        Some(pontos)
  }

  /** The list with the entry `exit` points at reopened, when it points at one. */
  function ReopenLinked(pontos: seq<Ponto>, exit: Ponto): (r: seq<Ponto>)
    ensures |r| == |pontos|
    ensures forall i :: 0 <= i < |pontos| ==> r[i].id == pontos[i].id
  {
    if Truthy(exit.relatedId) then Reopen(pontos, exit.relatedId.value) else pontos
  }

  /** The linked entry of `exit`, reopened; every other record unchanged. */
  function ReopenedIfLinked(exit: Ponto, p: Ponto): Ponto {
    if Truthy(exit.relatedId) && p.id == exit.relatedId.value then p.(status := Aberto) else p
  }

  /** With unique ids, reopening touches exactly the linked entry. */
  lemma ReopenLinkedPointwise(pontos: seq<Ponto>, exit: Ponto)
    requires UniqueIds(pontos)
    ensures forall i :: 0 <= i < |pontos| ==> ReopenLinked(pontos, exit)[i] == ReopenedIfLinked(exit, pontos[i])
  {
    if Truthy(exit.relatedId) {
      var eid := exit.relatedId.value;
      forall i | 0 <= i < |pontos|
        ensures ReopenLinked(pontos, exit)[i] == ReopenedIfLinked(exit, pontos[i])
      {
        if pontos[i].id == eid {
          assert IsFirstWith(pontos, PontoKey, eid, i);
        } else {
          assert !IsFirstWith(pontos, PontoKey, eid, i);
        }
      }
    }
  }

  /** With unique ids, the cascade for the SAIDA at position k is the reopened
      list without position k. */
  lemma DeleteSaidaList(pontos: seq<Ponto>, k: nat)
    requires UniqueIds(pontos)
    requires k < |pontos| && pontos[k].tipo == Saida
    ensures var reopened := ReopenLinked(pontos, pontos[k]);
      DeleteCascade(pontos, pontos[k].id) == Some(reopened[..k] + reopened[k + 1..])
  {
    var exit := pontos[k];
    var id := exit.id;
    assert PontoById(pontos, id) == Some(exit);
    var reopened := ReopenLinked(pontos, exit);
    assert DeleteCascade(pontos, id) == Some(Filter(reopened, IdIsNot(id)));
    forall j | 0 <= j < |reopened| && j != k ensures IdIsNot(id)(reopened[j]) {
      assert reopened[j].id == pontos[j].id;
    }
    FilterDropsOne(reopened, IdIsNot(id), k);
  }

  /** With unique ids, deleting the SAIDA at position k removes exactly that
      record and reopens exactly its linked entry; the rest keeps its order. */
  lemma DeleteSaidaEffect(pontos: seq<Ponto>, k: nat)
    requires UniqueIds(pontos)
    requires k < |pontos| && pontos[k].tipo == Saida
    ensures DeleteCascade(pontos, pontos[k].id).Some?
    ensures var r := DeleteCascade(pontos, pontos[k].id).value;
      && |r| == |pontos| - 1
      && forall i :: 0 <= i < |r| ==> r[i] == ReopenedIfLinked(pontos[k], pontos[if i < k then i else i + 1])
  {
    var exit := pontos[k];
    var reopened := ReopenLinked(pontos, exit);
    DeleteSaidaList(pontos, k);
    ReopenLinkedPointwise(pontos, exit);
    var r := reopened[..k] + reopened[k + 1..];
    forall i | 0 <= i < |r|
      ensures r[i] == ReopenedIfLinked(exit, pontos[if i < k then i else i + 1])
    {
      DropAt(reopened, k, i);
    }
  }

  /** Deleting an ENTRADA removes nothing but the entry and its linked records. */
  lemma DeleteEntradaEffect(pontos: seq<Ponto>, k: nat)
    requires k < |pontos| && pontos[k].tipo == Entrada
    requires forall j :: 0 <= j < k ==> pontos[j].id != pontos[k].id
    ensures DeleteCascade(pontos, pontos[k].id).Some?
    ensures var id := pontos[k].id; var r := DeleteCascade(pontos, id).value;
      && pontos[k] !in r
      && (forall p :: p in pontos && p.relatedId == Some(id) ==> p !in r)
      && (forall p :: p in pontos && p.id != id && p.relatedId != Some(id) ==> p in r)
  {
    var id := pontos[k].id;
    assert PontoById(pontos, id) == Some(pontos[k]);
    var r := DeleteCascade(pontos, id).value;
    forall p ensures p in r <==> p in pontos && p.id != id && p.relatedId != Some(id) {
      assert p in r <==> multiset(r)[p] > 0;
    }
  }

  /** Deleting an ENTRADA keeps the survivors in stored order: the cascade
      distributes over any split of the list into a front and a back part. */
  lemma DeleteEntradaKeepsOrder(a: seq<Ponto>, b: seq<Ponto>, id: string)
    requires PontoById(a + b, id).Some? && PontoById(a + b, id).value.tipo == Entrada
    ensures DeleteCascade(a + b, id).value == Filter(a, SurvivesEntryDeletion(id)) + Filter(b, SurvivesEntryDeletion(id))
  {
    FilterAppend(a, b, SurvivesEntryDeletion(id));
  }

  /** `deletePonto`: an unknown id changes nothing and logs nothing; otherwise
      the cascade is written and a removal is audited, even when the cascade
      kept the list (a break record). */
  function DeletePonto(db: Db, id: string, stamp: AuditStamp): (r: Db)
    ensures (forall p :: p in db.pontos ==> p.id != id) ==> r == db
    ensures (exists p :: p in db.pontos && p.id == id) ==>
      && r.pontos == DeleteCascade(db.pontos, id).value
      && r.audit == LogAudit(db.audit, "REMOCAO_PONTO", "Registro " + PontoById(db.pontos, id).value.codigo + " removido.", stamp)
    ensures r.(pontos := db.pontos, audit := db.audit) == db
  {
    match DeleteCascade(db.pontos, id)
    case None => db
    case Some(rest) =>
      var target := PontoById(db.pontos, id).value;
      Audit(db.(pontos := rest), "REMOCAO_PONTO", "Registro " + target.codigo + " removido.", stamp)
  }

  /** What `getLastPonto` looks at: the worker's records that are neither
      rejected nor awaiting approval. */
  predicate Qualifies(p: Ponto, cooperadoId: string) {
    p.cooperadoId == cooperadoId && p.status != Rejeitado && p.status != Pendente
  }

  /** Position of the record `getLastPonto` returns. The source sorts the
      qualifying records by descending timestamp with a stable sort and takes
      the head, so among equal timestamps the one stored first wins. */
  function LastIndex(s: seq<Ponto>, cooperadoId: string): (r: Option<nat>)
    ensures r.Some? ==> r.value < |s| && Qualifies(s[r.value], cooperadoId)
    ensures r.Some? ==> forall j :: 0 <= j < |s| && Qualifies(s[j], cooperadoId) ==> s[j].timestamp <= s[r.value].timestamp
    ensures r.Some? ==> forall j :: 0 <= j < r.value && Qualifies(s[j], cooperadoId) ==> s[j].timestamp < s[r.value].timestamp
    ensures r.None? <==> forall j :: 0 <= j < |s| ==> !Qualifies(s[j], cooperadoId)
    decreases |s|
  {
    if |s| == 0 then None
    else
      var best := LastIndex(s[..|s| - 1], cooperadoId);
      var p := s[|s| - 1];
      if Qualifies(p, cooperadoId) && (best.None? || p.timestamp > s[best.value].timestamp) then Some(|s| - 1)
      else best
  }

  /** `getLastPonto`. */
  function LastPonto(s: seq<Ponto>, cooperadoId: string): (r: Option<Ponto>)
    ensures r.Some? ==> r.value in s && Qualifies(r.value, cooperadoId)
    ensures r.Some? ==> forall q :: q in s && Qualifies(q, cooperadoId) ==> q.timestamp <= r.value.timestamp
    ensures r.None? <==> forall q :: q in s ==> !Qualifies(q, cooperadoId)
  {
    match LastIndex(s, cooperadoId)
    case None => None
    case Some(i) => Some(s[i])
  }

  /** A qualifying record strictly newer than every record of the worker
      becomes the worker's last record once appended. */
  lemma LastPontoAppendNewest(s: seq<Ponto>, p: Ponto)
    requires Qualifies(p, p.cooperadoId)
    requires forall q :: q in s && q.cooperadoId == p.cooperadoId ==> q.timestamp < p.timestamp
    ensures LastPonto(s + [p], p.cooperadoId) == Some(p)
  {
    var t := s + [p];
    assert t[..|t| - 1] == s;
  }

  // ---- categories, workers, managers, hospitals --------------------------------

  /** `saveCategoria`: a category already listed changes nothing; a new one is
      added, the list re-sorted and the addition audited. */
  function SaveCategoria(db: Db, categoria: string, stamp: AuditStamp): (r: Db)
    ensures categoria in r.categorias
    ensures categoria in db.categorias ==> r == db
    ensures categoria !in db.categorias ==>
      && multiset(r.categorias) == multiset(db.categorias) + multiset{categoria}
      && (forall i, j :: 0 <= i < j < |r.categorias| ==> Sorting.LexLe(r.categorias[i], r.categorias[j]))
      && r.audit == LogAudit(db.audit, "NOVA_CATEGORIA", "Categoria profissional '" + categoria + "' adicionada.", stamp)
    ensures r.(categorias := db.categorias, audit := db.audit) == db
  {
    if categoria in db.categorias then db
    else
      var sorted := Sorting.SortStrings(db.categorias + [categoria]);
      assert categoria in multiset(sorted);
      Audit(db.(categorias := sorted), "NOVA_CATEGORIA", "Categoria profissional '" + categoria + "' adicionada.", stamp)
  }

  /** Saving a category never introduces a repeated entry. */
  lemma SaveCategoriaDistinct(db: Db, categoria: string, stamp: AuditStamp)
    requires Distinct(db.categorias)
    ensures Distinct(SaveCategoria(db, categoria, stamp).categorias)
  {
    var r := SaveCategoria(db, categoria, stamp).categorias;
    if categoria !in db.categorias {
      DistinctIffAtMostOnce(db.categorias);
      assert multiset(db.categorias)[categoria] == 0;
      forall x ensures multiset(r)[x] <= 1 {
        assert multiset(r)[x] == multiset(db.categorias)[x] + multiset{categoria}[x];
      }
      DistinctIffAtMostOnce(r);
    }
  }

  function CooperadoKey(c: Cooperado): string { c.id }
  function ManagerKey(m: Manager): string { m.id }
  function HospitalKey(h: Hospital): string { h.id }

  /** `saveCooperado`: upsert by id, audited. */
  function SaveCooperado(db: Db, c: Cooperado, stamp: AuditStamp): (r: Db)
    ensures c in r.cooperados
    ensures (forall x :: x in db.cooperados ==> x.id != c.id) ==> r.cooperados == db.cooperados + [c]
    ensures forall i :: IsFirstWith(db.cooperados, CooperadoKey, c.id, i) ==> r.cooperados == db.cooperados[i := c]
    ensures |db.cooperados| <= |r.cooperados| <= |db.cooperados| + 1
    ensures r.audit == LogAudit(db.audit, "ATUALIZACAO_CADASTRO", "Cooperado " + c.nome + " atualizado/criado.", stamp)
    ensures r.(cooperados := db.cooperados, audit := db.audit) == db
  {
    Audit(db.(cooperados := Upsert(db.cooperados, c, CooperadoKey)), "ATUALIZACAO_CADASTRO", "Cooperado " + c.nome + " atualizado/criado.", stamp)
  }

  /** `saveManager`: upsert by id, audited. */
  function SaveManager(db: Db, m: Manager, stamp: AuditStamp): (r: Db)
    ensures m in r.managers
    ensures (forall x :: x in db.managers ==> x.id != m.id) ==> r.managers == db.managers + [m]
    ensures forall i :: IsFirstWith(db.managers, ManagerKey, m.id, i) ==> r.managers == db.managers[i := m]
    ensures |db.managers| <= |r.managers| <= |db.managers| + 1
    ensures r.audit == LogAudit(db.audit, "ATUALIZACAO_GESTOR", "Gestor " + m.username + " atualizado/criado.", stamp)
    ensures r.(managers := db.managers, audit := db.audit) == db
  {
    Audit(db.(managers := Upsert(db.managers, m, ManagerKey)), "ATUALIZACAO_GESTOR", "Gestor " + m.username + " atualizado/criado.", stamp)
  }

  /** `saveHospital`: upsert by id, audited. */
  function SaveHospital(db: Db, h: Hospital, stamp: AuditStamp): (r: Db)
    ensures h in r.hospitais
    ensures (forall x :: x in db.hospitais ==> x.id != h.id) ==> r.hospitais == db.hospitais + [h]
    ensures forall i :: IsFirstWith(db.hospitais, HospitalKey, h.id, i) ==> r.hospitais == db.hospitais[i := h]
    ensures |db.hospitais| <= |r.hospitais| <= |db.hospitais| + 1
    ensures r.audit == LogAudit(db.audit, "ATUALIZACAO_HOSPITAL", "Hospital " + h.nome + " atualizado.", stamp)
    ensures r.(hospitais := db.hospitais, audit := db.audit) == db
  {
    Audit(db.(hospitais := Upsert(db.hospitais, h, HospitalKey)), "ATUALIZACAO_HOSPITAL", "Hospital " + h.nome + " atualizado.", stamp)
  }

  /** Saving a worker keeps ids unique, and the saved record is the only one
      under its id. */
  lemma SaveCooperadoKeepsIdsUnique(db: Db, c: Cooperado, stamp: AuditStamp)
    requires UniqueKeys(db.cooperados, CooperadoKey)
    ensures var r := SaveCooperado(db, c, stamp).cooperados;
      && UniqueKeys(r, CooperadoKey)
      && forall x :: x in r && x.id == c.id ==> x == c
  {
    UpsertKeepsKeysUnique(db.cooperados, c, CooperadoKey);
  }

  /** Saving a manager keeps ids unique, and the saved record is the only one
      under its id. */
  lemma SaveManagerKeepsIdsUnique(db: Db, m: Manager, stamp: AuditStamp)
    requires UniqueKeys(db.managers, ManagerKey)
    ensures var r := SaveManager(db, m, stamp).managers;
      && UniqueKeys(r, ManagerKey)
      && forall x :: x in r && x.id == m.id ==> x == m
  {
    UpsertKeepsKeysUnique(db.managers, m, ManagerKey);
  }

  /** Saving a hospital keeps ids unique, and the saved record is the only one
      under its id. */
  lemma SaveHospitalKeepsIdsUnique(db: Db, h: Hospital, stamp: AuditStamp)
    requires UniqueKeys(db.hospitais, HospitalKey)
    ensures var r := SaveHospital(db, h, stamp).hospitais;
      && UniqueKeys(r, HospitalKey)
      && forall x :: x in r && x.id == h.id ==> x == h
  {
    UpsertKeepsKeysUnique(db.hospitais, h, HospitalKey);
  }
}
