/** The hospital registration form: its defaults, the generated access code,
    validation and slug on save, the permission merge when an old record is
    edited, the sector list, the permission switches and the CEP mask. */
module HospitalRegister {
  import opened Common
  import opened Types
  import opened Permissions
  import Storage
  import Text

  /** The permission switches of a new hospital; `testes` is not among them. */
  const DefaultPermissoes: Permissoes := map[
    Dashboard := true, Key.Ponto := true, Relatorio := true, Cadastro := false,
    Hospitais := false, Key.Biometria := true, Auditoria := false, Gestao := false,
    Espelho := false, Autorizacao := false]

  const EmptyEndereco: Endereco := Endereco("", "", "")

  /** `initialFormState`. */
  const InitialForm: Hospital := Hospital("", "", "", "", Some(""), Some(EmptyEndereco), DefaultPermissoes, [])

  // ---- handleNewHospital ----------------------------------------------------------

  /** `Math.floor(1000 + Math.random() * 9000)` for a draw `rnd` in [0, 1). */
  function AccessNumber(rnd: real): (n: nat)
    requires 0.0 <= rnd < 1.0
    ensures 1000 <= n <= 9999
  {
    (1000.0 + rnd * 9000.0).Floor
  }

  /** The generated login `HSP-dddd`. */
  function AccessCode(rnd: real): (code: string)
    requires 0.0 <= rnd < 1.0
    ensures |code| == 8 && code[..4] == "HSP-"
    ensures Text.AllDigits(code[4..]) && Text.DecimalValue(code[4..]) == AccessNumber(rnd)
  {
    var n := AccessNumber(rnd);
    assert Text.Pow10(3) == 1000 && Text.Pow10(4) == 10000;
    Text.NatToStringLength(n, 4);
    Text.DecimalRoundTrip(n);
    var code := "HSP-" + Text.NatToString(n);
    assert code[4..] == Text.NatToString(n);
    code
  }

  /** `handleNewHospital`: a blank form carrying a fresh access code. */
  function NewHospitalForm(rnd: real): (form: Hospital)
    requires 0.0 <= rnd < 1.0
    ensures form.(usuarioAcesso := InitialForm.usuarioAcesso) == InitialForm
    ensures |form.usuarioAcesso| == 8 && form.usuarioAcesso[..4] == "HSP-" && Text.AllDigits(form.usuarioAcesso[4..])
    ensures 1000 <= Text.DecimalValue(form.usuarioAcesso[4..]) <= 9999
  {
    InitialForm.(usuarioAcesso := AccessCode(rnd))
  }

  // ---- handleSave -----------------------------------------------------------------

  predicate SlugChar(c: char) {
    'a' <= c <= 'z' || '0' <= c <= '9'
  }

  predicate IsSlugText(s: string) {
    forall i :: 0 <= i < |s| ==> SlugChar(s[i])
  }

  /** What one character contributes to `toLowerCase().replace(/[^a-z0-9]/g, '')`:
      its lower-case form, kept only where it is a letter a-z or a digit. Besides
      A-Z, two characters lower-case into that range: KELVIN SIGN (U+212A) becomes
      `k`, and LATIN CAPITAL LETTER I WITH DOT ABOVE (U+0130) becomes `i` followed
      by a combining dot, which the filter drops. */
  function LowerSlugPart(c: char): (r: string)
    ensures |r| <= 1 && IsSlugText(r)
    ensures SlugChar(c) ==> r == [c]
    ensures 'A' <= c <= 'Z' ==> r == [(c as int + 32) as char]
    ensures c as int == 0x212A ==> r == "k"
    ensures c as int == 0x0130 ==> r == "i"
    ensures !SlugChar(c) && !('A' <= c <= 'Z') && c as int != 0x212A && c as int != 0x0130 ==> r == ""
  {
    if 'A' <= c <= 'Z' then [(c as int + 32) as char]
    else if SlugChar(c) then [c]
    else if c as int == 0x212A then "k"
    else if c as int == 0x0130 then "i"
    else ""
  }

  /** The lower-cased name with everything outside a-z and 0-9 removed. */
  function SlugChars(s: string): (r: string)
    ensures IsSlugText(r) && |r| <= |s|
  {
    if |s| == 0 then ""
    else LowerSlugPart(s[0]) + SlugChars(s[1..])
  }

  /** A name already made of slug characters passes through unchanged. */
  lemma {:induction false} SlugCharsOfSlugText(s: string)
    requires IsSlugText(s)
    ensures SlugChars(s) == s
  {
    if |s| > 0 {
      SlugCharsOfSlugText(s[1..]);
      assert s == [s[0]] + s[1..];
    }
  }

  /** `substring(0, 10)` of the filtered name. */
  function Slug(nome: string): (r: string)
    ensures |r| <= 10 && IsSlugText(r)
    ensures |r| <= |SlugChars(nome)| && r == SlugChars(nome)[..|r|]
    ensures |r| < 10 ==> r == SlugChars(nome)
  {
    var all := SlugChars(nome);
    if |all| <= 10 then all else all[..10]
  }

  /** A slug is its own slug. */
  lemma SlugIdempotent(nome: string)
    ensures Slug(Slug(nome)) == Slug(nome)
  {
    SlugCharsOfSlugText(Slug(nome));
  }

  /** An existing slug is kept; an empty one is derived from the name. */
  function SlugFor(form: Hospital): (slug: string)
    ensures form.slug != "" ==> slug == form.slug
    ensures form.slug == "" ==> slug == Slug(form.nome)
  {
    if form.slug != "" then form.slug else Slug(form.nome)
  }

  datatype SaveError = NomeObrigatorio | SenhaObrigatoria

  /** `handleSave`: name and password are both required, the name being checked
      first; the saved record keeps its id (a fresh one is taken only when the
      form has none) and gets its slug. */
  function HandleSave(db: Storage.Db, form: Hospital, newId: string, stamp: Storage.AuditStamp): (r: Result<Storage.Db, SaveError>)
    ensures form.nome == "" ==> r == Err(NomeObrigatorio)
    ensures form.nome != "" && !Truthy(form.senha) ==> r == Err(SenhaObrigatoria)
    ensures r.Ok? <==> form.nome != "" && Truthy(form.senha)
    ensures r.Ok? ==>
      var h := form.(slug := SlugFor(form), id := if form.id != "" then form.id else newId);
      && h in r.value.hospitais
      && (form.id != "" ==> h.id == form.id)
      && (form.id == "" ==> h.id == newId)
      && ((forall x :: x in db.hospitais ==> x.id != h.id) ==> r.value.hospitais == db.hospitais + [h])
      && (forall i :: Storage.IsFirstWith(db.hospitais, Storage.HospitalKey, h.id, i) ==> r.value.hospitais == db.hospitais[i := h])
      && r.value.audit == Storage.LogAudit(db.audit, "ATUALIZACAO_HOSPITAL", "Hospital " + form.nome + " atualizado.", stamp)
      && r.value.(hospitais := db.hospitais, audit := db.audit) == db
  {
    if form.nome == "" then Err(NomeObrigatorio)
    else if !Truthy(form.senha) then Err(SenhaObrigatoria)
    else
      var h := form.(slug := SlugFor(form), id := if form.id != "" then form.id else newId);
      Ok(Storage.SaveHospital(db, h, stamp))
  }

  // ---- handleEdit -----------------------------------------------------------------

  /** `handleEdit`: the stored record over the defaults. A missing password or
      address takes the form's default, and every permission the record stores
      overrides the default switch. */
  function EditForm(h: Hospital): (form: Hospital)
    ensures form.id == h.id && form.nome == h.nome && form.slug == h.slug && form.setores == h.setores
    ensures form.usuarioAcesso == h.usuarioAcesso
    ensures form.senha == if h.senha.Some? then h.senha else InitialForm.senha
    ensures form.endereco == if h.endereco.Some? then h.endereco else InitialForm.endereco
    ensures form.permissoes.Keys == DefaultPermissoes.Keys + h.permissoes.Keys
    ensures forall k :: k in h.permissoes ==> form.permissoes[k] == h.permissoes[k]
    ensures forall k :: k in DefaultPermissoes && k !in h.permissoes ==> form.permissoes[k] == DefaultPermissoes[k]
  {
    h.(senha := if h.senha.Some? then h.senha else InitialForm.senha,
       endereco := if h.endereco.Some? then h.endereco else InitialForm.endereco,
       permissoes := DefaultPermissoes + h.permissoes)
  }

  // ---- sectors ------------------------------------------------------------------

  /** `addSetor`: a blank name (nothing but white space) is ignored; otherwise
      one sector with the name as typed is appended. */
  function AddSetor(form: Hospital, nome: string, newId: string): (r: Hospital)
    ensures Text.IsBlank(nome) ==> r == form
    ensures !Text.IsBlank(nome) ==> r == form.(setores := form.setores + [Setor(newId, nome)])
  {
    Text.TrimEmptyIffBlank(nome);
    if Text.Trim(nome) == "" then form
    else form.(setores := form.setores + [Setor(newId, nome)])
  }

  function SetorIdIsNot(id: string): Setor -> bool {
    (s: Setor) => s.id != id
  }

  /** `removeSetor`: drop every sector with the id. */
  function RemoveSetor(form: Hospital, id: string): (r: Hospital)
    ensures r.(setores := form.setores) == form
    ensures forall s :: s in r.setores <==> s in form.setores && s.id != id
    ensures forall s: Setor :: s.id != id ==> multiset(r.setores)[s] == multiset(form.setores)[s]
  {
    FilterMultiset(form.setores, SetorIdIsNot(id));
    form.(setores := Filter(form.setores, SetorIdIsNot(id)))
  }

  /** The remaining sectors keep their order: removal works piecewise on any
      split of the list. */
  lemma RemoveSetorKeepsOrder(form: Hospital, a: seq<Setor>, b: seq<Setor>, id: string)
    requires form.setores == a + b
    ensures RemoveSetor(form, id).setores
         == RemoveSetor(form.(setores := a), id).setores + RemoveSetor(form.(setores := b), id).setores
  {
    FilterAppend(a, b, SetorIdIsNot(id));
  }

  /** Removing an id no sector has changes nothing. */
  lemma RemoveAbsentSetor(form: Hospital, id: string)
    requires forall s :: s in form.setores ==> s.id != id
    ensures RemoveSetor(form, id) == form
  {
    FilterKeepsAll(form.setores, SetorIdIsNot(id));
  }

  // ---- permissions ------------------------------------------------------------------

  /** `togglePermission`: the named switch flips (a missing one, read as
      false, turns on) and no other switch changes. */
  function TogglePermission(p: Permissoes, k: Key): (r: Permissoes)
    ensures r.Keys == p.Keys + {k}
    ensures r[k] <==> !(k in p && p[k])
    ensures forall j :: j in p && j != k ==> r[j] == p[j]
  {
    p[k := !(k in p && p[k])]
  }

  /** Flipping a stored switch twice restores the permissions. */
  lemma ToggleTwice(p: Permissoes, k: Key)
    requires k in p
    ensures TogglePermission(TogglePermission(p, k), k) == p
  {
  }

  // ---- handleCepChange ------------------------------------------------------------

  /** `value.replace(/\D/g, '').replace(/^(\d{5})(\d)/, '$1-$2').substring(0, 9)`. */
  function CepMask(value: string): (r: string)
    ensures |r| <= 9
    ensures var d := Text.DigitsOf(value);
      && (|d| <= 5 ==> r == d)
      && (|d| > 5 ==> |r| == Min(|d|, 8) + 1 && r[..5] == d[..5] && r[5] == '-' && r[6..] == d[5..Min(|d|, 8)])
  {
    var d := Text.DigitsOf(value);
    var formatted := if |d| >= 6 then d[..5] + "-" + d[5..] else d;
    if |formatted| <= 9 then formatted else formatted[..9]
  }

  /** The mask keeps the first eight digits of what was typed, in order. */
  lemma CepMaskDigits(value: string)
    ensures var d := Text.DigitsOf(value);
      Text.DigitsOf(CepMask(value)) == d[..Min(|d|, 8)]
  {
    var d := Text.DigitsOf(value);
    if |d| > 5 {
      var head, tail := d[..5], d[5..Min(|d|, 8)];
      assert Text.AllDigits(head) && Text.AllDigits(tail);
      assert CepMask(value) == head + "-" + tail;
      DigitsOfParts(head, tail);
      assert d[..Min(|d|, 8)] == head + tail;
    }
  }

  lemma DigitsOfParts(head: string, tail: string)
    requires Text.AllDigits(head) && Text.AllDigits(tail)
    ensures Text.DigitsOf(head + "-" + tail) == head + tail
  {
    var dash := "-";
    var left := head + dash;
    Text.DigitsOfAppend(left, tail);
    Text.DigitsOfAppend(head, dash);
    assert Text.DigitsOf(dash) == "" by {
      assert !Text.IsDigit(dash[0]) && dash[1..] == "";
    }
    assert Text.DigitsOf(head) == head && Text.DigitsOf(tail) == tail;
    assert Text.DigitsOf(left) == head;
  }

  /** Masking a masked CEP changes nothing. */
  lemma CepMaskIdempotent(value: string)
    ensures CepMask(CepMask(value)) == CepMask(value)
  {
    var d := Text.DigitsOf(value);
    var r := CepMask(value);
    CepMaskDigits(value);
    var d2 := Text.DigitsOf(r);
    assert d2 == d[..Min(|d|, 8)];
    if |d| > 5 {
      assert d2[..5] == d[..5];
      assert d2[5..Min(|d2|, 8)] == d[5..Min(|d|, 8)];
    }
  }
}
