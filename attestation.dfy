/**
 * The signed envelope. The park signs the message it publishes (parque.py, `assinar_mensagem`)
 * and the web client checks the chain of trust before it believes the message
 * (cliente_web.py, `validar_resposta_segura`).
 *
 * RSA, X.509 parsing, `json.dumps`, `str()` of a non-string value and UTF-8 are foreign code:
 * they are the function-valued fields of a `Biblioteca`, and what a proof needs of them is a
 * premise of that proof. The cp437 codec is modelled on top of its 256-entry table.
 */
module Attestation {
  import opened Results

  newtype Byte = x: int | 0 <= x < 256
  type Bytes = seq<Byte>

  /** A decoded JSON value, as the client reads it out of a response body (integers only). */
  datatype Json =
    | JNull
    | JBool(b: bool)
    | JNum(n: int)
    | JStr(s: string)
    | JList(itens: seq<Json>)
    | JObj(campos: seq<(string, Json)>)

  /** Python's truthiness of a decoded JSON value. */
  predicate Verdadeiro(j: Json) {
    match j
    case JNull => false
    case JBool(b) => b
    case JNum(n) => n != 0
    case JStr(s) => s != []
    case JList(xs) => xs != []
    case JObj(cs) => cs != []
  }

  /** `type(j).__name__` */
  function NomeDoTipo(j: Json): string {
    match j
    case JNull => "NoneType"
    case JBool(_) => "bool"
    case JNum(_) => "int"
    case JStr(_) => "str"
    case JList(_) => "list"
    case JObj(_) => "dict"
  }

  /** The text of the `AttributeError` raised by calling `.encode` on a value that is not a string. */
  function SemEncode(j: Json): string {
    "'" + NomeDoTipo(j) + "' object has no attribute 'encode'"
  }

  datatype Chave = Chave(id: nat)
  datatype Privada = Privada(id: nat)

  /** The public half of a private key. */
  function Publica(k: Privada): Chave {
    Chave(k.id)
  }

  datatype Hash = Sha256 | OutroHash(nome: string)
  datatype Padding = PssMax | Pss32 | Pkcs1v15

  /** The outcome of one `verify` call: it returns, raises `InvalidSignature`, or raises something else. */
  datatype Verificacao = Valida | Invalida | Falhou(tipo: string, mensagem: string)

  /** What the client uses of a parsed X.509 certificate. */
  datatype Certificado = Certificado(assinatura: Bytes, tbs: Bytes, hash: Hash, chavePublica: Chave)

  /** The keyword arguments of one `json.dumps` call: `sort_keys`, compact separators, `ensure_ascii`. */
  datatype Estilo = Estilo(ordenado: bool, compacto: bool, soAscii: bool)

  /** The foreign code both sides call. */
  datatype Biblioteca = Biblioteca(
    dumps: (Json, Estilo) -> string,
    str: Json -> string,
    utf8: string -> Bytes,
    tabela437: Byte -> char,
    erro437: (string, nat) -> string,
    carregarPem: Bytes -> Result<Certificado, string>,
    verificar: (Chave, Bytes, Bytes, Padding, Hash) -> Verificacao,
    assinar: (Privada, Bytes, Padding, Hash) -> Bytes)

  /** The three fields of a response body the client reads; a missing field reads as `JNull`. */
  datatype Envelope = Envelope(certificado: Json, assinatura: Json, mensagem: Json)

  // ---------------------------------------------------------------------------------------------
  // cp437

  /** `bytes.decode("cp437")`: every byte has a character, so decoding never fails. */
  function Descodificar437(tabela: Byte -> char, bs: Bytes): (s: string)
    ensures |s| == |bs|
    ensures forall i :: 0 <= i < |bs| ==> s[i] == tabela(bs[i])
  {
    if bs == [] then [] else [tabela(bs[0])] + Descodificar437(tabela, bs[1..])
  }

  /** The first byte, from `desde` on, that the table maps to `c`. */
  function Posicao437(tabela: Byte -> char, c: char, desde: nat): (r: Option<Byte>)
    requires desde <= 256
    ensures r.Some? ==> tabela(r.value) == c && desde <= r.value as int
    ensures r.None? ==> forall b: Byte :: desde <= b as int ==> tabela(b) != c
    decreases 256 - desde
  {
    if desde == 256 then None
    else if tabela(desde as Byte) == c then Some(desde as Byte)
    else Posicao437(tabela, c, desde + 1)
  }

  /** How many characters at the start of `s` the table does not reach. */
  function Intraduziveis(tabela: Byte -> char, s: string): (n: nat)
    ensures n <= |s|
    ensures forall i :: 0 <= i < n ==> Posicao437(tabela, s[i], 0).None?
    ensures n < |s| ==> Posicao437(tabela, s[n], 0).Some?
    decreases |s|
  {
    if s == [] || Posicao437(tabela, s[0], 0).Some? then 0 else 1 + Intraduziveis(tabela, s[1..])
  }

  /**
   * `str.encode("cp437")` from position `pos` of the original text: the first run of characters
   * the table does not reach raises one `UnicodeEncodeError`, whose text the codec supplies from
   * that run and the position where it starts.
   */
  function Codificar437(tabela: Byte -> char, erro: (string, nat) -> string, s: string, pos: nat): (r: Result<Bytes, string>)
    ensures r.Ok? ==> Descodificar437(tabela, r.value) == s
    ensures r.Err? ==> exists i :: 0 <= i < |s| && Posicao437(tabela, s[i], 0).None?
    decreases |s|
  {
    if s == [] then Ok([])
    else match Posicao437(tabela, s[0], 0)
      case None => Err(erro(s[..Intraduziveis(tabela, s)], pos))
      case Some(b) =>
        match Codificar437(tabela, erro, s[1..], pos + 1)
        case Err(e) => Err(e)
        case Ok(resto) =>
          assert Descodificar437(tabela, [b] + resto) == [tabela(b)] + Descodificar437(tabela, resto) by {
            assert ([b] + resto)[1..] == resto;
          }
          Ok([b] + resto)
  }

  /** A code page is a bijection onto the characters it reaches when no two bytes share a character. */
  ghost predicate Injectiva(tabela: Byte -> char) {
    forall a: Byte, b: Byte :: tabela(a) == tabela(b) ==> a == b
  }

  /** Bytes turned into cp437 text and back are the bytes they were. */
  lemma {:induction false} Cp437IdaEVolta(tabela: Byte -> char, erro: (string, nat) -> string, bs: Bytes, pos: nat)
    requires Injectiva(tabela)
    ensures Codificar437(tabela, erro, Descodificar437(tabela, bs), pos) == Ok(bs)
  {
    if bs != [] {
      var s := Descodificar437(tabela, bs);
      assert s[0] == tabela(bs[0]);
      var p := Posicao437(tabela, s[0], 0);
      assert p == Some(bs[0]);
      assert s[1..] == Descodificar437(tabela, bs[1..]);
      Cp437IdaEVolta(tabela, erro, bs[1..], pos + 1);
      assert [bs[0]] + bs[1..] == bs;
    }
  }

  /**
   * Encoding fails at the first character the table does not reach, at its position in the
   * original text, and the error covers the whole run of such characters starting there.
   */
  lemma {:induction false} Codificar437Erro(tabela: Byte -> char, erro: (string, nat) -> string, s: string, pos: nat, i: nat)
    requires i < |s| && Posicao437(tabela, s[i], 0).None?
    requires forall j :: 0 <= j < i ==> Posicao437(tabela, s[j], 0).Some?
    ensures Intraduziveis(tabela, s[i..]) >= 1
    ensures Codificar437(tabela, erro, s, pos) == Err(erro(s[i..][..Intraduziveis(tabela, s[i..])], pos + i))
    decreases i
  {
    if i == 0 {
      assert s[0..] == s;
      Codificar437Falha(tabela, erro, s, pos);
    } else {
      var t := s[1..];
      AlcancadosCauda(tabela, s, i);
      Codificar437Erro(tabela, erro, t, pos + 1, i - 1);
      Codificar437Segue(tabela, erro, s, pos);
    }
  }

  /** Dropping the first character keeps the rest of a prefix the table reaches, and what follows it. */
  lemma AlcancadosCauda(tabela: Byte -> char, s: string, i: nat)
    requires 0 < i < |s|
    requires forall j :: 0 <= j < i ==> Posicao437(tabela, s[j], 0).Some?
    ensures Posicao437(tabela, s[0], 0).Some?
    ensures s[1..][i - 1] == s[i] && s[1..][i - 1..] == s[i..]
    ensures forall j :: 0 <= j < i - 1 ==> Posicao437(tabela, s[1..][j], 0).Some?
  {
    assert Posicao437(tabela, s[0], 0).Some?;
    forall j | 0 <= j < i - 1
      ensures Posicao437(tabela, s[1..][j], 0).Some?
    {
      assert s[1..][j] == s[j + 1];
    }
  }

  /** A first character the table does not reach fails at once, over the run it starts. */
  lemma Codificar437Falha(tabela: Byte -> char, erro: (string, nat) -> string, s: string, pos: nat)
    requires s != [] && Posicao437(tabela, s[0], 0).None?
    ensures Codificar437(tabela, erro, s, pos) == Err(erro(s[..Intraduziveis(tabela, s)], pos))
  {
  }

  /** A first character the table reaches passes an error of the rest on unchanged. */
  lemma Codificar437Segue(tabela: Byte -> char, erro: (string, nat) -> string, s: string, pos: nat)
    requires s != [] && Posicao437(tabela, s[0], 0).Some? && Codificar437(tabela, erro, s[1..], pos + 1).Err?
    ensures Codificar437(tabela, erro, s, pos) == Codificar437(tabela, erro, s[1..], pos + 1)
  {
  }

  /** `assinatura.encode("cp437")` on the field as read. */
  function BytesDaAssinatura(lib: Biblioteca, assinatura: Json): (r: Result<Bytes, string>)
    ensures !assinatura.JStr? ==> r == Err(SemEncode(assinatura))
  {
    if assinatura.JStr? then Codificar437(lib.tabela437, lib.erro437, assinatura.s, 0)
    else Err(SemEncode(assinatura))
  }

  // ---------------------------------------------------------------------------------------------
  // What gets signed

  /** `json.dumps(dados)` with no keyword argument. */
  const JsonPadrao := Estilo(false, false, true)

  /** The six `json.dumps` calls the client tries on a dictionary, in its order. */
  const Estilos: seq<Estilo> := [
    JsonPadrao, Estilo(false, true, true), Estilo(true, false, true), Estilo(true, true, true),
    Estilo(false, false, false), Estilo(false, true, false)]

  /** `str(m)`: a string is itself; anything else is the foreign rendering. */
  function Str(lib: Biblioteca, m: Json): string {
    if m.JStr? then m.s else lib.str(m)
  }

  /** The bytes the client may find signed, in the order it tries them. */
  function Candidatos(lib: Biblioteca, m: Json): (cs: seq<Bytes>)
    ensures m.JObj? ==> |cs| == |Estilos| && forall k :: 0 <= k < |cs| ==> cs[k] == lib.utf8(lib.dumps(m, Estilos[k]))
    ensures !m.JObj? ==> cs == [lib.utf8(Str(lib, m))]
  {
    if m.JObj? then
      [lib.utf8(lib.dumps(m, Estilos[0])), lib.utf8(lib.dumps(m, Estilos[1])), lib.utf8(lib.dumps(m, Estilos[2])),
       lib.utf8(lib.dumps(m, Estilos[3])), lib.utf8(lib.dumps(m, Estilos[4])), lib.utf8(lib.dumps(m, Estilos[5]))]
    else [lib.utf8(Str(lib, m))]
  }

  /** The bytes the park signs: default `json.dumps` of a dictionary, `str()` of anything else. */
  function BytesAssinados(lib: Biblioteca, dados: Json): Bytes {
    lib.utf8(if dados.JObj? then lib.dumps(dados, JsonPadrao) else Str(lib, dados))
  }

  /** `Parque.assinar_mensagem`: RSA-PSS with the largest salt over SHA-256, carried as cp437 text. */
  function AssinarMensagem(lib: Biblioteca, k: Privada, dados: Json): (s: string)
    ensures |s| == |lib.assinar(k, BytesAssinados(lib, dados), PssMax, Sha256)|
  {
    Descodificar437(lib.tabela437, lib.assinar(k, BytesAssinados(lib, dados), PssMax, Sha256))
  }

  /** What the park signs is the first thing the client tries. */
  lemma AssinadoEPrimeiroCandidato(lib: Biblioteca, dados: Json)
    ensures Candidatos(lib, dados)[0] == BytesAssinados(lib, dados)
  {
    if dados.JObj? {
      assert Estilos[0] == JsonPadrao;
    }
  }

  // ---------------------------------------------------------------------------------------------
  // The order of the attempts

  /** The paddings the client tries, with the name it reports a failure under. */
  const Paddings: seq<(string, Padding)> := [("PSS_MAX", PssMax), ("PSS_32", Pss32), ("PKCS1v15", Pkcs1v15)]

  /** One attempt: (candidate index, padding index). */
  type Par = (nat, nat)

  /** The attempts on candidate `i`, padding by padding. */
  function Linha(i: nat): seq<Par> {
    [(i, 0), (i, 1), (i, 2)]
  }

  /** The attempts on candidates `i` to `n - 1`, candidate-major. */
  function OrdemDesde(i: nat, n: nat): seq<Par>
    decreases n - i
  {
    if i >= n then [] else Linha(i) + OrdemDesde(i + 1, n)
  }

  /** Every attempt the nested loop can make on `n` candidates, in the order it makes them. */
  function Ordem(n: nat): seq<Par> {
    OrdemDesde(0, n)
  }

  /** Lexicographic order on attempts: an earlier candidate first, then an earlier padding. */
  predicate Antes(a: Par, b: Par) {
    a.0 < b.0 || (a.0 == b.0 && a.1 < b.1)
  }

  lemma LinhaForma(i: nat)
    ensures forall t :: t in Linha(i) <==> t.0 == i && t.1 < 3
    ensures |Linha(i)| == 3 && forall k :: 0 <= k < 3 ==> Linha(i)[k] == (i, k)
  {
    forall t ensures t in Linha(i) <==> t.0 == i && t.1 < 3 {
      if t.0 == i && t.1 < 3 {
        assert |Linha(i)| == 3;
        assert t == Linha(i)[t.1];
      }
    }
  }

  lemma {:induction false} OrdemDesdeTamanho(i: nat, n: nat)
    requires i <= n
    ensures |OrdemDesde(i, n)| == 3 * (n - i)
    decreases n - i
  {
    if i < n {
      OrdemDesdeTamanho(i + 1, n);
    }
  }

  lemma {:induction false} OrdemDesdePertenca(i: nat, n: nat)
    ensures forall t :: t in OrdemDesde(i, n) <==> i <= t.0 < n && t.1 < 3
    decreases n - i
  {
    if i < n {
      OrdemDesdePertenca(i + 1, n);
      LinhaForma(i);
      assert OrdemDesde(i, n) == Linha(i) + OrdemDesde(i + 1, n);
    }
  }

  lemma {:induction false} OrdemDesdeCrescente(i: nat, n: nat)
    ensures forall a, b :: 0 <= a < b < |OrdemDesde(i, n)| ==> Antes(OrdemDesde(i, n)[a], OrdemDesde(i, n)[b])
    decreases n - i
  {
    if i < n {
      OrdemDesdeCrescente(i + 1, n);
      OrdemDesdePertenca(i + 1, n);
      var o := OrdemDesde(i, n);
      var resto := OrdemDesde(i + 1, n);
      assert o == Linha(i) + resto;
      forall a, b | 0 <= a < b < |o| ensures Antes(o[a], o[b]) {
        if b >= 3 {
          assert o[b] == resto[b - 3];
          assert o[b] in resto;
          if a >= 3 {
            assert o[a] == resto[a - 3];
          }
        }
      }
    }
  }

  lemma {:induction false} OrdemDesdeUltimo(i: nat, n: nat)
    requires i < n
    ensures OrdemDesde(i, n) != [] && OrdemDesde(i, n)[|OrdemDesde(i, n)| - 1] == (n - 1, 2)
    decreases n - i
  {
    var resto := OrdemDesde(i + 1, n);
    assert OrdemDesde(i, n) == Linha(i) + resto;
    if i + 1 < n {
      OrdemDesdeUltimo(i + 1, n);
      assert OrdemDesde(i, n)[|OrdemDesde(i, n)| - 1] == resto[|resto| - 1];
    } else {
      assert resto == [];
    }
  }

  /**
   * On `n` candidates there are 3n attempts, every pair in range and nothing else, from the
   * first padding on the first candidate to the last padding on the last.
   */
  lemma OrdemForma(n: nat)
    ensures |Ordem(n)| == 3 * n
    ensures forall t :: t in Ordem(n) <==> t.0 < n && t.1 < 3
    ensures n > 0 ==> Ordem(n)[0] == (0, 0) && Ordem(n)[3 * n - 1] == (n - 1, 2)
  {
    OrdemDesdeTamanho(0, n);
    OrdemDesdePertenca(0, n);
    if n > 0 {
      OrdemDesdeUltimo(0, n);
      assert Ordem(n) == Linha(0) + OrdemDesde(1, n);
    }
  }

  /** The attempts are made candidate-major: in strictly increasing lexicographic order. */
  lemma OrdemLexicografica(n: nat)
    ensures forall a, b :: 0 <= a < b < |Ordem(n)| ==> Antes(Ordem(n)[a], Ordem(n)[b])
  {
    OrdemDesdeCrescente(0, n);
  }

  // ---------------------------------------------------------------------------------------------
  // The search

  /** What one search runs on: the library, the park's public key, the signature and the candidates. */
  datatype Busca = Busca(lib: Biblioteca, chave: Chave, sig: Bytes, cands: seq<Bytes>)

  predicate ParValido(b: Busca, t: Par) {
    t.0 < |b.cands| && t.1 < |Paddings|
  }

  /** The `verify` call of attempt `t`. */
  function Tentar(b: Busca, t: Par): Verificacao
    requires ParValido(b, t)
  {
    b.lib.verificar(b.chave, b.sig, b.cands[t.0], Paddings[t.1].1, Sha256)
  }

  /** Some candidate verifies under some padding. */
  predicate Aceita(b: Busca) {
    exists i: nat, j: nat :: i < |b.cands| && j < |Paddings| && Tentar(b, (i, j)) == Valida
  }

  /** How a failed attempt is reported: the padding's name and the exception. */
  function MotivoFalha(nome: string, v: Verificacao): string
    requires !v.Valida?
  {
    match v
    case Invalida => nome + " -> InvalidSignature"
    case Falhou(tipo, m) => nome + " -> " + tipo + ": " + m
  }

  function Motivo(b: Busca, t: Par): string
    requires ParValido(b, t) && Tentar(b, t) != Valida
  {
    MotivoFalha(Paddings[t.1].0, Tentar(b, t))
  }

  /** The attempts a search makes through `ordem`: up to and including the first that verifies. */
  function Percurso(b: Busca, ordem: seq<Par>): (r: seq<Par>)
    requires forall t :: t in ordem ==> ParValido(b, t)
    ensures |r| <= |ordem|
  {
    if ordem == [] then []
    else if Tentar(b, ordem[0]) == Valida then [ordem[0]]
    else [ordem[0]] + Percurso(b, ordem[1..])
  }

  /** The attempts made are the first ones of `ordem`, in its order. */
  lemma {:induction false} PercursoPrefixo(b: Busca, ordem: seq<Par>)
    requires forall t :: t in ordem ==> ParValido(b, t)
    ensures forall k :: 0 <= k < |Percurso(b, ordem)| ==> Percurso(b, ordem)[k] == ordem[k]
  {
    if ordem != [] && Tentar(b, ordem[0]) != Valida {
      PercursoPrefixo(b, ordem[1..]);
    }
  }

  /** Every attempt before the last one failed. */
  lemma {:induction false} PercursoFalhasAntes(b: Busca, ordem: seq<Par>)
    requires forall t :: t in ordem ==> ParValido(b, t)
    ensures forall k :: 0 <= k < |Percurso(b, ordem)| - 1 ==> Tentar(b, ordem[k]) != Valida
  {
    if ordem != [] && Tentar(b, ordem[0]) != Valida {
      var resto := ordem[1..];
      PercursoFalhasAntes(b, resto);
      forall k | 0 < k < |Percurso(b, ordem)| - 1 ensures Tentar(b, ordem[k]) != Valida {
        assert ordem[k] == resto[k - 1];
      }
    }
  }

  /** When some attempt in `ordem` would verify, the last one made does. */
  lemma {:induction false} PercursoEncontra(b: Busca, ordem: seq<Par>)
    requires forall t :: t in ordem ==> ParValido(b, t)
    requires exists t :: t in ordem && Tentar(b, t) == Valida
    ensures Percurso(b, ordem) != [] && Tentar(b, ordem[|Percurso(b, ordem)| - 1]) == Valida
  {
    if Tentar(b, ordem[0]) != Valida {
      var resto := ordem[1..];
      var t :| t in ordem && Tentar(b, t) == Valida;
      assert t in resto;
      PercursoEncontra(b, resto);
      assert ordem[|Percurso(b, ordem)| - 1] == resto[|Percurso(b, resto)| - 1];
    }
  }

  /** When no attempt in `ordem` verifies, all of them are made. */
  lemma {:induction false} PercursoCompleto(b: Busca, ordem: seq<Par>)
    requires forall t :: t in ordem ==> ParValido(b, t) && Tentar(b, t) != Valida
    ensures Percurso(b, ordem) == ordem
  {
    if ordem != [] {
      PercursoCompleto(b, ordem[1..]);
      assert ordem == [ordem[0]] + ordem[1..];
    }
  }

  /**
   * Every attempt before the last one failed; the last one verifies when any attempt in `ordem`
   * would; when none would, every attempt in `ordem` is made.
   */
  lemma PercursoForma(b: Busca, ordem: seq<Par>)
    requires forall t :: t in ordem ==> ParValido(b, t)
    ensures var r := Percurso(b, ordem);
      forall k :: 0 <= k < |r| - 1 ==> Tentar(b, ordem[k]) != Valida
    ensures var r := Percurso(b, ordem);
      (exists t :: t in ordem && Tentar(b, t) == Valida) ==> r != [] && Tentar(b, ordem[|r| - 1]) == Valida
    ensures (forall t :: t in ordem ==> Tentar(b, t) != Valida) ==> Percurso(b, ordem) == ordem
  {
    PercursoFalhasAntes(b, ordem);
    if exists t :: t in ordem && Tentar(b, t) == Valida {
      PercursoEncontra(b, ordem);
    }
    if forall t :: t in ordem ==> Tentar(b, t) != Valida {
      PercursoCompleto(b, ordem);
    }
  }

  /** Failed attempts up front are made and then the search goes on. */
  lemma {:induction false} PercursoFalhas(b: Busca, falhas: seq<Par>, resto: seq<Par>)
    requires forall t :: t in falhas ==> ParValido(b, t) && Tentar(b, t) != Valida
    requires forall t :: t in resto ==> ParValido(b, t)
    ensures Percurso(b, falhas + resto) == falhas + Percurso(b, resto)
  {
    if falhas != [] {
      var tudo := falhas + resto;
      assert tudo[0] == falhas[0];
      assert tudo[1..] == falhas[1..] + resto;
      assert falhas[0] in falhas;
      assert Percurso(b, tudo) == [tudo[0]] + Percurso(b, tudo[1..]);
      assert forall t :: t in falhas[1..] ==> t in falhas;
      PercursoFalhas(b, falhas[1..], resto);
      assert falhas == [falhas[0]] + falhas[1..];
      assert [falhas[0]] + (falhas[1..] + Percurso(b, resto)) == falhas + Percurso(b, resto);
    } else {
      assert falhas + resto == resto;
    }
  }

  /** Some pair verifies exactly when some attempt in the loop's order verifies. */
  lemma AceitaNaOrdem(b: Busca)
    ensures forall t :: t in Ordem(|b.cands|) ==> ParValido(b, t)
    ensures Aceita(b) <==> exists t :: t in Ordem(|b.cands|) && Tentar(b, t) == Valida
  {
    var n := |b.cands|;
    OrdemForma(n);
    if Aceita(b) {
      var i: nat, j: nat :| i < n && j < |Paddings| && Tentar(b, (i, j)) == Valida;
      var t: Par := (i, j);
      assert t in Ordem(n);
    }
    if exists t :: t in Ordem(n) && Tentar(b, t) == Valida {
      var t :| t in Ordem(n) && Tentar(b, t) == Valida;
      var i: nat, j: nat := t.0, t.1;
      assert t == (i, j);
    }
  }

  /** The search makes at least one and at most 3 attempts per candidate, in the loop's order, and all but the last failed. */
  lemma PesquisaPercurso(b: Busca)
    requires b.cands != []
    ensures forall t :: t in Ordem(|b.cands|) ==> ParValido(b, t)
    ensures var o, r := Ordem(|b.cands|), Percurso(b, Ordem(|b.cands|));
      r != [] && |r| <= 3 * |b.cands| && (forall k :: 0 <= k < |r| ==> r[k] == o[k])
    ensures var o, r := Ordem(|b.cands|), Percurso(b, Ordem(|b.cands|));
      forall k :: 0 <= k < |r| - 1 ==> Tentar(b, o[k]) != Valida
  {
    var n := |b.cands|;
    OrdemForma(n);
    var o := Ordem(n);
    PercursoForma(b, o);
    PercursoPrefixo(b, o);
    var r := Percurso(b, o);
    assert r != [] by {
      assert o[0] in o;
      if Tentar(b, o[0]) != Valida {
        assert o == [o[0]] + o[1..];
      }
    }
  }

  /**
   * The last attempt verifies exactly when some pair does; when none does, every pair was tried
   * and the last one was the last padding on the last candidate.
   */
  lemma PesquisaDesfecho(b: Busca)
    requires b.cands != []
    ensures forall t :: t in Ordem(|b.cands|) ==> ParValido(b, t)
    ensures var o, r := Ordem(|b.cands|), Percurso(b, Ordem(|b.cands|));
      r != [] && (Aceita(b) <==> Tentar(b, o[|r| - 1]) == Valida)
    ensures var r := Percurso(b, Ordem(|b.cands|));
      !Aceita(b) ==> r == Ordem(|b.cands|) && r[|r| - 1] == (|b.cands| - 1, 2)
  {
    var n := |b.cands|;
    OrdemForma(n);
    AceitaNaOrdem(b);
    var o := Ordem(n);
    PercursoForma(b, o);
    var r := Percurso(b, o);
    assert r != [];
    assert o[|r| - 1] in o;
  }

  /** Both halves together. */
  lemma Pesquisa(b: Busca)
    requires b.cands != []
    ensures forall t :: t in Ordem(|b.cands|) ==> ParValido(b, t)
    ensures var o, r := Ordem(|b.cands|), Percurso(b, Ordem(|b.cands|));
      r != [] && |r| <= 3 * |b.cands| && (forall k :: 0 <= k < |r| ==> r[k] == o[k])
    ensures var o, r := Ordem(|b.cands|), Percurso(b, Ordem(|b.cands|));
      forall k :: 0 <= k < |r| - 1 ==> Tentar(b, o[k]) != Valida
    ensures var o, r := Ordem(|b.cands|), Percurso(b, Ordem(|b.cands|));
      Aceita(b) <==> Tentar(b, o[|r| - 1]) == Valida
    ensures var r := Percurso(b, Ordem(|b.cands|));
      !Aceita(b) ==> r == Ordem(|b.cands|) && r[|r| - 1] == (|b.cands| - 1, 2)
  {
    PesquisaPercurso(b);
    PesquisaDesfecho(b);
  }

  /** Once an attempt in `a` verifies, nothing after `a` is tried. */
  lemma {:induction false} PercursoSucesso(b: Busca, a: seq<Par>, c: seq<Par>)
    requires forall t :: t in a ==> ParValido(b, t)
    requires forall t :: t in c ==> ParValido(b, t)
    requires exists t :: t in a && Tentar(b, t) == Valida
    ensures Percurso(b, a + c) == Percurso(b, a)
  {
    var tudo := a + c;
    assert tudo[0] == a[0];
    if Tentar(b, a[0]) != Valida {
      assert tudo[1..] == a[1..] + c;
      var t :| t in a && Tentar(b, t) == Valida;
      assert t in a[1..];
      PercursoSucesso(b, a[1..], c);
    }
  }

  /** When the attempt at `k` is the first that verifies, the search stops right after it. */
  lemma {:induction false} PercursoAte(b: Busca, ordem: seq<Par>, k: nat)
    requires forall t :: t in ordem ==> ParValido(b, t)
    requires k < |ordem| && Tentar(b, ordem[k]) == Valida
    requires forall m :: 0 <= m < k ==> Tentar(b, ordem[m]) != Valida
    ensures Percurso(b, ordem) == ordem[..k + 1]
  {
    if k > 0 {
      var resto := ordem[1..];
      assert forall m :: 0 <= m < k - 1 ==> resto[m] == ordem[m + 1];
      PercursoAte(b, resto, k - 1);
      assert ordem[..k + 1] == [ordem[0]] + resto[..k];
    }
  }

  /**
   * The inner loop on candidate `i`: each padding in turn until one verifies. `feitas` lists
   * the `verify` calls it made; `ultimo` is how the last failed one failed.
   */
  method TentarPaddings(lib: Biblioteca, chave: Chave, sig: Bytes, candidatos: seq<Bytes>, i: nat, ultimo0: Option<string>)
    returns (ok: bool, ultimo: Option<string>, feitas: seq<Par>)
    requires i < |candidatos|
    ensures feitas == PercursoLinha(Busca(lib, chave, sig, candidatos), i)
    ensures ok <==> LinhaAceita(Busca(lib, chave, sig, candidatos), i)
    ensures !ok ==> ultimo == Some(Motivo(Busca(lib, chave, sig, candidatos), (i, 2)))
  {
    ghost var b := Busca(lib, chave, sig, candidatos);
    LinhaForma(i);
    feitas := [];
    ultimo := ultimo0;
    ok := false;
    var j := 0;
    while j < |Paddings|
      invariant 0 <= j <= |Paddings|
      invariant feitas == Linha(i)[..j]
      invariant forall k :: 0 <= k < j ==> Tentar(b, (i, k)) != Valida
      invariant j > 0 ==> ultimo == Some(Motivo(b, (i, j - 1)))
    {
      var (nome, pad) := Paddings[j];
      var v := lib.verificar(chave, sig, candidatos[i], pad, Sha256);
      feitas := feitas + [(i, j)];
      if v == Valida {
        ok := true;
        PercursoAte(b, Linha(i), j);
        break;
      }
      ultimo := Some(MotivoFalha(nome, v));
      j := j + 1;
    }
    if !ok {
      PercursoForma(b, Linha(i));
      assert Linha(i)[..3] == Linha(i);
    }
  }

  /** Some padding verifies on candidate `i`. */
  predicate LinhaAceita(b: Busca, i: nat)
    requires i < |b.cands|
  {
    exists j :: 0 <= j < |Paddings| && Tentar(b, (i, j)) == Valida
  }

  /** No padding verifies on any candidate below `i`. */
  predicate NenhumaAntes(b: Busca, i: nat)
    requires i <= |b.cands|
  {
    forall c, k :: 0 <= c < i && 0 <= k < |Paddings| ==> Tentar(b, (c, k)) != Valida
  }

  lemma LinhaAceitaAceita(b: Busca, i: nat)
    requires i < |b.cands| && LinhaAceita(b, i)
    ensures Aceita(b)
  {
    var j :| 0 <= j < |Paddings| && Tentar(b, (i, j)) == Valida;
  }

  lemma NenhumaAntesSnoc(b: Busca, i: nat)
    requires i < |b.cands| && NenhumaAntes(b, i) && !LinhaAceita(b, i)
    ensures NenhumaAntes(b, i + 1)
  {
  }

  lemma NenhumaAntesRecusa(b: Busca)
    requires NenhumaAntes(b, |b.cands|)
    ensures !Aceita(b)
  {
  }

  /** The attempts the inner loop makes on candidate `i`. */
  function PercursoLinha(b: Busca, i: nat): seq<Par>
    requires i < |b.cands|
  {
    LinhaForma(i);
    Percurso(b, Linha(i))
  }

  /** The attempts the outer loop makes from candidate `i` on. */
  function Restante(b: Busca, i: nat): seq<Par>
    requires i <= |b.cands|
  {
    OrdemDesdePertenca(i, |b.cands|);
    Percurso(b, OrdemDesde(i, |b.cands|))
  }

  /** The row of candidate `i` is made first and then, unless it verified, the rest. */
  lemma PassoLinha(b: Busca, i: nat)
    requires i < |b.cands|
    ensures LinhaAceita(b, i) ==> Restante(b, i) == PercursoLinha(b, i)
    ensures !LinhaAceita(b, i) ==> Restante(b, i) == PercursoLinha(b, i) + Restante(b, i + 1)
  {
    var n := |b.cands|;
    var resto := OrdemDesde(i + 1, n);
    assert OrdemDesde(i, n) == Linha(i) + resto;
    OrdemDesdePertenca(i, n);
    OrdemDesdePertenca(i + 1, n);
    LinhaForma(i);
    if LinhaAceita(b, i) {
      var k :| 0 <= k < |Paddings| && Tentar(b, (i, k)) == Valida;
      assert (i, k) in Linha(i);
      PercursoSucesso(b, Linha(i), resto);
    } else {
      forall t | t in Linha(i) ensures Tentar(b, t) != Valida {
        var k: nat := t.1;
        assert t == (i, k);
      }
      PercursoFalhas(b, Linha(i), resto);
      PercursoFalhas(b, Linha(i), []);
      assert Linha(i) + [] == Linha(i);
    }
  }

  /**
   * One turn of the outer loop: when `alvo` is what was made so far followed by the attempts
   * from candidate `i` on, it stays so after the row of candidate `i`.
   */
  lemma PassoProcura(b: Busca, i: nat, alvo: seq<Par>, antes: seq<Par>)
    requires i < |b.cands| && alvo == antes + Restante(b, i)
    ensures LinhaAceita(b, i) ==> alvo == antes + PercursoLinha(b, i)
    ensures !LinhaAceita(b, i) ==> alvo == (antes + PercursoLinha(b, i)) + Restante(b, i + 1)
  {
    PassoLinha(b, i);
  }

  /** Before the loop every attempt is still to come; after it none is. */
  lemma RestanteExtremos(b: Busca)
    ensures forall t :: t in Ordem(|b.cands|) ==> ParValido(b, t)
    ensures Restante(b, 0) == Percurso(b, Ordem(|b.cands|))
    ensures Restante(b, |b.cands|) == []
  {
    OrdemDesdePertenca(0, |b.cands|);
  }

  /**
   * The nested loop of `validar_resposta_segura`: each candidate in turn, each padding in turn,
   * stopping at the first `verify` that returns and otherwise remembering how the last one failed.
   * `tentativas` lists the `verify` calls it made.
   */
  method Procurar(lib: Biblioteca, chave: Chave, sig: Bytes, candidatos: seq<Bytes>)
    returns (ok: bool, ultimo: Option<string>, tentativas: seq<Par>)
    ensures forall t :: t in Ordem(|candidatos|) ==> ParValido(Busca(lib, chave, sig, candidatos), t)
    ensures tentativas == Percurso(Busca(lib, chave, sig, candidatos), Ordem(|candidatos|))
    ensures ok <==> Aceita(Busca(lib, chave, sig, candidatos))
    ensures !ok && candidatos == [] ==> ultimo == None
    ensures !ok && candidatos != [] ==> ultimo == Some(Motivo(Busca(lib, chave, sig, candidatos), (|candidatos| - 1, 2)))
  {
    ghost var b := Busca(lib, chave, sig, candidatos);
    var n := |candidatos|;
    RestanteExtremos(b);
    ghost var alvo := Restante(b, 0);
    tentativas := [];
    ultimo := None;
    ok := false;
    var i := 0;
    while i < n
      invariant 0 <= i <= n
      invariant alvo == tentativas + Restante(b, i)
      invariant NenhumaAntes(b, i)
      invariant i == 0 ==> ultimo == None
      invariant i > 0 ==> ultimo == Some(Motivo(b, (i - 1, 2)))
    {
      var achou, u, feitas := TentarPaddings(lib, chave, sig, candidatos, i, ultimo);
      PassoProcura(b, i, alvo, tentativas);
      if achou {
        LinhaAceitaAceita(b, i);
        tentativas := tentativas + feitas;
        ultimo := u;
        ok := true;
        break;
      }
      NenhumaAntesSnoc(b, i);
      tentativas := tentativas + feitas;
      ultimo := u;
      i := i + 1;
    }
    if !ok {
      assert tentativas + [] == tentativas;
      NenhumaAntesRecusa(b);
    }
  }

  // ---------------------------------------------------------------------------------------------
  // The verifier

  /** Why the client refuses an envelope; `Texto` is the text of the exception it raises. */
  datatype Recusa =
    | SemChaveGestor
    | Incompletos
    | CertificadoInvalido(motivo: string)
    | AssinaturaInvalida(motivo: string)

  function Texto(r: Recusa): string {
    match r
    case SemChaveGestor => "Chave do Gestor em falta"
    case Incompletos => "Dados de segurança incompletos"
    case CertificadoInvalido(m) => "Certificado inválido: " + m
    case AssinaturaInvalida(m) => "Assinatura da mensagem inválida: " + m
  }

  /** The reason raised when no attempt verifies, carrying the report of the last one. */
  function TodasFalharam(ultimo: string): string {
    "Assinatura inválida. Tentativas falharam. Último: " + ultimo
  }

  /**
   * The first `try` block: parse the PEM text and check its signature with the issuer's key
   * (PKCS#1 v1.5, the certificate's own hash). `str(InvalidSignature())` is empty.
   */
  function Certificar(lib: Biblioteca, gestor: Chave, pem: Json): (r: Result<Certificado, string>)
    ensures r.Ok? ==> pem.JStr? && lib.carregarPem(lib.utf8(pem.s)) == Ok(r.value)
    ensures r.Ok? ==> lib.verificar(gestor, r.value.assinatura, r.value.tbs, Pkcs1v15, r.value.hash) == Valida
  {
    if !pem.JStr? then Err(SemEncode(pem))
    else match lib.carregarPem(lib.utf8(pem.s))
      case Err(e) => Err(e)
      case Ok(c) =>
        match lib.verificar(gestor, c.assinatura, c.tbs, Pkcs1v15, c.hash)
        case Valida => Ok(c)
        case Invalida => Err("")
        case Falhou(_, m) => Err(m)
  }

  /** The result of one call and the attempts it made. */
  datatype Desfecho = Desfecho(resultado: Result<(), Recusa>, tentativas: seq<Par>)

  /** The three fields are present: certificate and signature truthy, and a message that is not `None`. */
  predicate Completo(dados: Envelope) {
    Verdadeiro(dados.certificado) && Verdadeiro(dados.assinatura) && !dados.mensagem.JNull?
  }

  /** Every check before the search passes: issuer key, fields, certificate and signature bytes. */
  predicate Verificavel(lib: Biblioteca, gestor: Option<Chave>, dados: Envelope) {
    && gestor.Some?
    && Completo(dados)
    && Certificar(lib, gestor.value, dados.certificado).Ok?
    && BytesDaAssinatura(lib, dados.assinatura).Ok?
  }

  /** The search those checks lead to: the certificate's key, the signature bytes, the candidates. */
  function BuscaDe(lib: Biblioteca, gestor: Option<Chave>, dados: Envelope): (b: Busca)
    requires Verificavel(lib, gestor, dados)
    ensures b.cands != []
    ensures forall t :: t in Ordem(|b.cands|) ==> ParValido(b, t)
  {
    var b := Busca(lib, Certificar(lib, gestor.value, dados.certificado).value.chavePublica,
                   BytesDaAssinatura(lib, dados.assinatura).value, Candidatos(lib, dados.mensagem));
    AceitaNaOrdem(b);
    b
  }

  /**
   * What `validar_resposta_segura` does with an envelope, given the issuer's key if it was loaded.
   * It accepts exactly when every check passes and some candidate verifies under some padding with
   * the certificate's key; each check that fails gives its own refusal, with no signature tried.
   */
  function Veredito(lib: Biblioteca, gestor: Option<Chave>, dados: Envelope): (d: Desfecho)
    ensures d.tentativas != [] ==> gestor.Some? && Verdadeiro(dados.certificado) && Verdadeiro(dados.assinatura)
    ensures d.tentativas != [] ==> !dados.mensagem.JNull? && Certificar(lib, gestor.value, dados.certificado).Ok?
    ensures d.resultado.Ok? ==> d.tentativas != []
    ensures d.resultado.Ok? <==> Verificavel(lib, gestor, dados) && Aceita(BuscaDe(lib, gestor, dados))
    ensures gestor.None? ==> d == Desfecho(Err(SemChaveGestor), [])
    ensures gestor.Some? && !Completo(dados) ==> d == Desfecho(Err(Incompletos), [])
    ensures gestor.Some? && Completo(dados) && Certificar(lib, gestor.value, dados.certificado).Err?
      ==> d == Desfecho(Err(CertificadoInvalido(Certificar(lib, gestor.value, dados.certificado).error)), [])
    ensures gestor.Some? && Completo(dados) && Certificar(lib, gestor.value, dados.certificado).Ok?
            && BytesDaAssinatura(lib, dados.assinatura).Err?
      ==> d == Desfecho(Err(AssinaturaInvalida(BytesDaAssinatura(lib, dados.assinatura).error)), [])
    ensures Verificavel(lib, gestor, dados) && !Aceita(BuscaDe(lib, gestor, dados)) ==>
      var b := BuscaDe(lib, gestor, dados);
      Tentar(b, (|b.cands| - 1, 2)) != Valida
      && d.resultado == Err(AssinaturaInvalida(TodasFalharam(Motivo(b, (|b.cands| - 1, 2)))))
    ensures Verificavel(lib, gestor, dados) ==>
      d.tentativas == Percurso(BuscaDe(lib, gestor, dados), Ordem(|BuscaDe(lib, gestor, dados).cands|))
  {
    if gestor.None? then Desfecho(Err(SemChaveGestor), [])
    else if !Verdadeiro(dados.certificado) || !Verdadeiro(dados.assinatura) || dados.mensagem.JNull? then
      Desfecho(Err(Incompletos), [])
    else match Certificar(lib, gestor.value, dados.certificado)
      case Err(e) => Desfecho(Err(CertificadoInvalido(e)), [])
      case Ok(cert) =>
        match BytesDaAssinatura(lib, dados.assinatura)
        case Err(e) => Desfecho(Err(AssinaturaInvalida(e)), [])
        case Ok(sig) =>
          var b := Busca(lib, cert.chavePublica, sig, Candidatos(lib, dados.mensagem));
          Pesquisa(b);
          var n := |b.cands|;
          var tentativas := Percurso(b, Ordem(n));
          if Aceita(b) then Desfecho(Ok(()), tentativas)
          else Desfecho(Err(AssinaturaInvalida(TodasFalharam(Motivo(b, (n - 1, 2))))), tentativas)
  }

  /**
   * `validar_resposta_segura`: the checks in order, then the candidate list, then the search.
   * `tentativas` lists the `verify` calls it made on the message.
   */
  method ValidarRespostaSegura(lib: Biblioteca, gestor: Option<Chave>, dados: Envelope)
    returns (r: Result<(), Recusa>, tentativas: seq<Par>)
    ensures Desfecho(r, tentativas) == Veredito(lib, gestor, dados)
  {
    tentativas := [];
    if gestor.None? {
      return Err(SemChaveGestor), tentativas;
    }
    var pem := dados.certificado;
    var assinatura := dados.assinatura;
    var mensagem := dados.mensagem;
    if !Verdadeiro(pem) || !Verdadeiro(assinatura) || mensagem.JNull? {
      return Err(Incompletos), tentativas;
    }
    var cert := Certificar(lib, gestor.value, pem);
    if cert.Err? {
      return Err(CertificadoInvalido(cert.error)), tentativas;
    }
    var sig := BytesDaAssinatura(lib, assinatura);
    if sig.Err? {
      return Err(AssinaturaInvalida(sig.error)), tentativas;
    }
    var candidatos: seq<Bytes> := [];
    if mensagem.JObj? {
      candidatos := candidatos + [
        lib.utf8(lib.dumps(mensagem, Estilos[0])), lib.utf8(lib.dumps(mensagem, Estilos[1])),
        lib.utf8(lib.dumps(mensagem, Estilos[2])), lib.utf8(lib.dumps(mensagem, Estilos[3])),
        lib.utf8(lib.dumps(mensagem, Estilos[4])), lib.utf8(lib.dumps(mensagem, Estilos[5]))];
    } else {
      candidatos := candidatos + [lib.utf8(Str(lib, mensagem))];
    }
    assert candidatos == Candidatos(lib, mensagem);
    var ok, ultimo;
    ok, ultimo, tentativas := Procurar(lib, cert.value.chavePublica, sig.value, candidatos);
    if ok {
      r := Ok(());
    } else {
      r := Err(AssinaturaInvalida(TodasFalharam(ultimo.value)));
    }
  }

  // ---------------------------------------------------------------------------------------------
  // Signer and verifier together

  /** `verify` accepts what `sign` produced with the matching key, padding and hash. */
  ghost predicate VerificaOQueAssina(lib: Biblioteca) {
    forall k: Privada, m: Bytes, p: Padding, h: Hash :: lib.verificar(Publica(k), lib.assinar(k, m, p, h), m, p, h) == Valida
  }

  /** When the first pair verifies, the search stops there. */
  lemma PrimeiraTentativa(b: Busca)
    requires b.cands != [] && Tentar(b, (0, 0)) == Valida
    ensures forall t :: t in Ordem(|b.cands|) ==> ParValido(b, t)
    ensures Aceita(b) && Percurso(b, Ordem(|b.cands|)) == [(0, 0)]
  {
    OrdemForma(|b.cands|);
    var o := Ordem(|b.cands|);
    assert o[0] in o;
  }

  /**
   * An envelope the park built, with a certificate for its key that the issuer signed, is
   * accepted on the first attempt: default `json.dumps` under PSS with the largest salt.
   */
  lemma EnvelopeDoParqueAceite(lib: Biblioteca, gestor: Chave, k: Privada, pem: string, cert: Certificado, mensagem: Json)
    requires Injectiva(lib.tabela437) && VerificaOQueAssina(lib)
    requires pem != [] && lib.carregarPem(lib.utf8(pem)) == Ok(cert) && cert.chavePublica == Publica(k)
    requires lib.verificar(gestor, cert.assinatura, cert.tbs, Pkcs1v15, cert.hash) == Valida
    requires !mensagem.JNull? && lib.assinar(k, BytesAssinados(lib, mensagem), PssMax, Sha256) != []
    ensures Veredito(lib, Some(gestor), Envelope(JStr(pem), JStr(AssinarMensagem(lib, k, mensagem)), mensagem))
         == Desfecho(Ok(()), [(0, 0)])
  {
    var bytes := lib.assinar(k, BytesAssinados(lib, mensagem), PssMax, Sha256);
    var texto := AssinarMensagem(lib, k, mensagem);
    Cp437IdaEVolta(lib.tabela437, lib.erro437, bytes, 0);
    assert BytesDaAssinatura(lib, JStr(texto)) == Ok(bytes);
    assert Certificar(lib, gestor, JStr(pem)) == Ok(cert);
    var b := Busca(lib, cert.chavePublica, bytes, Candidatos(lib, mensagem));
    AssinadoEPrimeiroCandidato(lib, mensagem);
    assert Tentar(b, (0, 0)) == Valida;
    PrimeiraTentativa(b);
  }

  /** A message that is an empty dictionary is not "incomplete": only `None` is. */
  lemma MensagemVaziaCompleta(lib: Biblioteca, gestor: Chave, dados: Envelope)
    requires Verdadeiro(dados.certificado) && Verdadeiro(dados.assinatura) && dados.mensagem == JObj([])
    ensures Veredito(lib, Some(gestor), dados).resultado != Err(Incompletos)
  {
  }
}
