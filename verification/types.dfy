/** The permission flags a hospital or manager account carries. A stored
    record is a JSON object, so a flag may be missing; the model keeps them as
    a finite map from flag to value. */
module Permissions {

  datatype Key =
    | Dashboard | Ponto | Relatorio | Cadastro | Hospitais | Biometria
    | Auditoria | Gestao | Testes | Espelho | Autorizacao

  type Permissoes = map<Key, bool>
}

/** The records of the application: clock events ("pontos"), workers
    ("cooperados"), hospitals with their sectors, managers and audit entries.
    Timestamps are milliseconds since the Unix epoch, in UTC. */
module Types {
  import opened Common
  import Permissions

  datatype Tipo = Entrada | IntervaloIda | IntervaloVolta | Saida

  datatype Status = Aberto | Fechado | Pendente | Rejeitado

  /** The enum value as it is written into audit details. */
  function TipoLabel(t: Tipo): string {
    match t
    case Entrada => "ENTRADA"
    case IntervaloIda => "INTERVALO_IDA"
    case IntervaloVolta => "INTERVALO_VOLTA"
    case Saida => "SAIDA"
  }

  function StatusLabel(s: Status): string {
    match s
    case Aberto => "Aberto"
    case Fechado => "Fechado"
    case Pendente => "Pendente"
    case Rejeitado => "Rejeitado"
  }

  /** Reason attached to a worker-submitted correction. */
  datatype Justificativa = Justificativa(motivo: string, descricao: Option<string>, dataSolicitacao: int)

  /** One clock event. An exit points at the entry it closes through `relatedId`. */
  datatype Ponto = Ponto(
    id: string,
    codigo: string,
    cooperadoId: string,
    cooperadoNome: string,
    timestamp: int,
    tipo: Tipo,
    local: string,
    hospitalId: Option<string>,
    setorId: Option<string>,
    observacao: Option<string>,
    validadoPor: Option<string>,
    isManual: bool,
    status: Status,
    relatedId: Option<string>,
    justificativa: Option<Justificativa>)

  /** Every record in the store has its own id (ids come from `crypto.randomUUID`). */
  predicate UniqueIds(s: seq<Ponto>) {
    forall i, j :: 0 <= i < j < |s| ==> s[i].id != s[j].id
  }

  const MillisPerDay: int := 86400000

  /** The UTC calendar day of a timestamp, counted from 1970-01-01; it orders
      days exactly as their `toISOString().split('T')[0]` texts do. */
  function IsoDay(ts: int): int {
    ts / MillisPerDay
  }

  datatype Biometria = Biometria(id: string, fingerIndex: int, hash: string, createdAt: int)

  datatype StatusCooperado = Ativo | Inativo | Suspenso

  datatype Cooperado = Cooperado(
    id: string,
    nome: string,
    cpf: string,
    matricula: string,
    especialidade: string,
    telefone: string,
    email: string,
    status: StatusCooperado,
    biometrias: seq<Biometria>,
    updatedAt: int)

  datatype Setor = Setor(id: string, nome: string)

  datatype Endereco = Endereco(cep: string, logradouro: string, numero: string)

  datatype Hospital = Hospital(
    id: string,
    nome: string,
    slug: string,
    usuarioAcesso: string,
    senha: Option<string>,
    endereco: Option<Endereco>,
    permissoes: Permissions.Permissoes,
    setores: seq<Setor>)

  datatype Manager = Manager(id: string, username: string, password: string, permissoes: Permissions.Permissoes)

  datatype AuditLog = AuditLog(id: string, action: string, details: string, timestamp: int, user: string)
}
