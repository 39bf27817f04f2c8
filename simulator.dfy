/**
 * The parking-space simulator: each space draws its next state, writes an `UPDATE` (sometimes
 * deliberately wrong) to the lot server, reads the reply, and reconnects when the connection
 * fails, keeping its state and its name. Draws of `random.random()` are parameters in [0, 1);
 * what the sockets return is an event.
 */
module Simulator {
  import opened Results
  import opened Text
  import opened Codec
  import Registry

  /** Probability that a free space becomes occupied at a tick. */
  const PO: real := 0.25
  /** Probability that an occupied space becomes free at a tick. */
  const PL: real := 0.15

  /** The state the server knows under the name `LIVRE` or `OCUPADO`. */
  predicate EstadoValido(estado: string) {
    estado == Registry.Livre || estado == Registry.Ocupado
  }

  /**
   * `_proximo_estado`: from `LIVRE` the draw `u` occupies the space when below `po`, from
   * `OCUPADO` it frees it when below `pl`; any other state is kept.
   */
  function ProximoEstado(estado: string, u: real, po: real, pl: real): (r: string)
    ensures estado == Registry.Livre ==> (r == Registry.Ocupado <==> u < po) && EstadoValido(r)
    ensures estado == Registry.Ocupado ==> (r == Registry.Livre <==> u < pl) && EstadoValido(r)
    ensures !EstadoValido(estado) ==> r == estado
  {
    if estado == Registry.Livre && u < po then Registry.Ocupado
    else if estado == Registry.Ocupado && u < pl then Registry.Livre
    else estado
  }

  // ---------------------------------------------------------------------------------------
  // What a space sends

  /** The five messages `_enviar_atualizacao` may send, four of them deliberately wrong. */
  datatype Banda =
    | MalFormada          // a parameter without `=`
    | IdInexistente       // the id 9999
    | ComandoDesconhecido // the command `START`
    | EstadoInvalido      // the state `INVALIDO`
    | Correta             // the real id and state

  /** The band the draw `r` falls into: the bands cut [0, 1) at 0.05, 0.10, 0.15 and 0.25. */
  function BandaDe(r: real): (b: Banda)
    ensures b == MalFormada <==> r < 0.05
    ensures b == IdInexistente <==> 0.05 <= r < 0.10
    ensures b == ComandoDesconhecido <==> 0.10 <= r < 0.15
    ensures b == EstadoInvalido <==> 0.15 <= r < 0.25
    ensures b == Correta <==> 0.25 <= r
  {
    if r < 0.05 then MalFormada
    else if r < 0.10 then IdInexistente
    else if r < 0.15 then ComandoDesconhecido
    else if r < 0.25 then EstadoInvalido
    else Correta
  }

  /** A message a space writes: its `INIT`, or one `UPDATE` in a band. */
  datatype Envio =
    | EnvioInit(nome: string)
    | EnvioAtualizacao(banda: Banda, lugarId: int, estado: string)

  function MensagemInit(nome: string): string {
    Codificar("INIT", [("nome", nome)])
  }

  function MensagemUpdate(lugarId: int, estado: string): string {
    Codificar("UPDATE", [("id", IntToString(lugarId)), ("estado", estado)])
  }

  /** The text on the wire; a space's id and state appear only in the bands that use them. */
  function Texto(e: Envio): string {
    match e
    case EnvioInit(nome) => MensagemInit(nome)
    case EnvioAtualizacao(banda, lugarId, estado) =>
      match banda
      case MalFormada => "UPDATE;;id"
      case IdInexistente => MensagemUpdate(9999, estado)
      case ComandoDesconhecido => "START"
      case EstadoInvalido => MensagemUpdate(lugarId, "INVALIDO")
      case Correta => MensagemUpdate(lugarId, estado)
  }

  // ---------------------------------------------------------------------------------------
  // What a space reads back

  /** The exceptions a space's reply handling raises. */
  datatype Excecao =
    | ConnectionError(msg: string)
    | ValueError(msg: string)
    | Protocolo(erro: ProtocoloErro)

  /**
   * `_receber_resposta`: an empty read means the server closed the connection; otherwise the
   * text, stripped.
   */
  function ReceberResposta(recebido: string): (r: Result<string, Excecao>)
    ensures r.Err? <==> recebido == []
    ensures r.Err? ==> r.error == ConnectionError("Ligação encerrada pelo Parque!")
    ensures r.Ok? ==> r.value == Strip(recebido)
  {
    if recebido == [] then Err(ConnectionError("Ligação encerrada pelo Parque!"))
    else Ok(Strip(recebido))
  }

  /**
   * `_obter_id` after its `INIT` is sent: the id of an `OK` reply with an `id`, read by `int()`;
   * any other reply is a `ValueError`, and a reply that does not decode raises the protocol error.
   */
  function ObterId(recebido: string): Result<int, Excecao> {
    match ReceberResposta(recebido)
    case Err(e) => Err(e)
    case Ok(resposta) =>
      match Descodificado(resposta)
      case Err(e) => Err(Protocolo(e))
      case Ok(dados) =>
        if dados["comando"] != "OK" || "id" !in dados then
          Err(ValueError("Resposta inesperada ao INIT: " + resposta))
        else
          match ParseInt(dados["id"])
          case None => Err(ValueError(Registry.ErroInt(dados["id"])))
          case Some(lugarId) => Ok(lugarId)
  }

  /**
   * The reply check of `_enviar_atualizacao`: the reply is read and decoded; its content only
   * reaches the log, and an `ERRO` is not an exception.
   */
  function LerRespostaAtualizacao(recebido: string): Result<Dados, Excecao> {
    match ReceberResposta(recebido)
    case Err(e) => Err(e)
    case Ok(resposta) =>
      match Descodificado(resposta)
      case Err(e) => Err(Protocolo(e))
      case Ok(dados) => Ok(dados)
  }

  // ---------------------------------------------------------------------------------------
  // The reconnect loop `simular_lugar`

  /** Where the loop of `simular_lugar` is: connecting, sending updates under an id, or ended. */
  datatype Fase = Desligado | Registado(lugarId: int) | Parado

  /** The locals of `simular_lugar` that outlive one connection. */
  datatype Lugar = Lugar(nome: string, estado: string, fase: Fase)

  /**
   * What the environment supplies to one pass of the loop:
   * `FalhaLigacao`, the connection attempt fails;
   * `Ligacao(recebido)`, the connection is made, the `INIT` is sent and `recebido` is read back;
   * `Ciclo(u, r, recebido)`, one update pass with the draws `u` (state) and `r` (band) and the read;
   * `Interrupcao`, the user stops the simulation.
   * An empty read also stands for a send or receive that fails, which the loop treats the same way.
   * An event that cannot occur in the current phase leaves the space unchanged.
   */
  datatype Evento =
    | FalhaLigacao
    | Ligacao(recebido: string)
    | Ciclo(u: real, r: real, recebido: string)
    | Interrupcao

  function Inicio(nome: string): Lugar {
    Lugar(nome, Registry.Livre, Desligado)
  }

  /** One pass of the loop: the new locals and what was sent. */
  function Passo(s: Lugar, ev: Evento): (Lugar, seq<Envio>) {
    match s.fase
    case Parado => (s, [])
    case Desligado =>
      (match ev
       case FalhaLigacao => (s, [])
       case Ligacao(recebido) =>
         var fase := match ObterId(recebido)
           case Ok(lugarId) => Registado(lugarId)
           case Err(Protocolo(_)) => Parado
           case Err(_) => Desligado;
         (s.(fase := fase), [EnvioInit(s.nome)])
       case Ciclo(_, _, _) => (s, [])
       case Interrupcao => (s.(fase := Parado), []))
    case Registado(lugarId) =>
      (match ev
       case Ciclo(u, r, recebido) =>
         var estado := ProximoEstado(s.estado, u, PO, PL);
         var fase := match LerRespostaAtualizacao(recebido)
           case Ok(_) => s.fase
           case Err(Protocolo(_)) => Parado
           case Err(_) => Desligado;
         (s.(estado := estado, fase := fase), [EnvioAtualizacao(BandaDe(r), lugarId, estado)])
       case Interrupcao => (s.(fase := Parado), [])
       case _ => (s, []))
  }

  /** The loop over a run of events: the final locals and everything sent, in order. */
  function Simular(s: Lugar, eventos: seq<Evento>): (Lugar, seq<Envio>)
    decreases |eventos|
  {
    if eventos == [] then (s, [])
    else
      var antes := Simular(s, eventos[..|eventos| - 1]);
      var passo := Passo(antes.0, eventos[|eventos| - 1]);
      (passo.0, antes.1 + passo.1)
  }

  lemma SimularSnoc(s: Lugar, eventos: seq<Evento>, ev: Evento)
    ensures var antes := Simular(s, eventos);
      var passo := Passo(antes.0, ev);
      Simular(s, eventos + [ev]) == (passo.0, antes.1 + passo.1)
  {
    assert (eventos + [ev])[..|eventos|] == eventos;
  }

  /**
   * `simular_lugar(nome)` over a finite run of events: the loop ends when the space stops,
   * and the rest of the run is not read.
   */
  method SimularLugar(nome: string, eventos: seq<Evento>) returns (estado: string, fase: Fase, enviados: seq<Envio>)
    ensures (Lugar(nome, estado, fase), enviados) == Simular(Inicio(nome), eventos)
  {
    estado := Registry.Livre;
    fase := Desligado;
    enviados := [];
    var i := 0;
    while i < |eventos| && fase != Parado
      invariant 0 <= i <= |eventos|
      invariant (Lugar(nome, estado, fase), enviados) == Simular(Inicio(nome), eventos[..i])
    {
      SimularSnoc(Inicio(nome), eventos[..i], eventos[i]);
      assert eventos[..i + 1] == eventos[..i] + [eventos[i]];
      ghost var passo := Passo(Lugar(nome, estado, fase), eventos[i]);
      ghost var antes := enviados;
      assert antes + [] == antes;
      match fase {
        case Desligado =>
          match eventos[i] {
            case FalhaLigacao =>
            case Ligacao(recebido) =>
              enviados := enviados + [EnvioInit(nome)];
              var id := ObterId(recebido);
              if id.Ok? {
                fase := Registado(id.value);
              } else if id.error.Protocolo? {
                fase := Parado;
              }
            case Ciclo(_, _, _) =>
            case Interrupcao =>
              fase := Parado;
          }
        case Registado(lugarId) =>
          match eventos[i] {
            case Ciclo(u, r, recebido) =>
              estado := ProximoEstado(estado, u, PO, PL);
              enviados := enviados + [EnvioAtualizacao(BandaDe(r), lugarId, estado)];
              var lida := LerRespostaAtualizacao(recebido);
              if lida.Err? {
                fase := if lida.error.Protocolo? then Parado else Desligado;
              }
            case Interrupcao =>
              fase := Parado;
            case _ =>
          }
      }
      assert (Lugar(nome, estado, fase), enviados) == (passo.0, antes + passo.1);
      i := i + 1;
    }
    if i < |eventos| {
      SimularAteParar(Inicio(nome), eventos, i);
    } else {
      assert eventos[..i] == eventos;
    }
  }

  // ---------------------------------------------------------------------------------------
  // Properties of the loop

  /** Running the loop over two runs of events in turn is running it over both. */
  lemma {:induction false} SimularConcat(s: Lugar, xs: seq<Evento>, ys: seq<Evento>)
    ensures var a := Simular(s, xs);
      var b := Simular(a.0, ys);
      Simular(s, xs + ys) == (b.0, a.1 + b.1)
    decreases |ys|
  {
    if ys == [] {
      assert xs + ys == xs;
      assert Simular(s, xs).1 + [] == Simular(s, xs).1;
    } else {
      var init := ys[..|ys| - 1];
      var ev := ys[|ys| - 1];
      SimularConcat(s, xs, init);
      assert ys == init + [ev];
      assert xs + ys == (xs + init) + [ev];
      SimularSnoc(s, xs + init, ev);
      var a := Simular(s, xs);
      SimularSnoc(a.0, init, ev);
      var c := Simular(a.0, init);
      var p := Passo(c.0, ev);
      assert Simular(a.0, ys) == (p.0, c.1 + p.1);
      assert Simular(s, xs + ys) == (p.0, (a.1 + c.1) + p.1);
      EnviosAssociam(a.1, c.1, p.1);
    }
  }

  lemma EnviosAssociam(x: seq<Envio>, y: seq<Envio>, z: seq<Envio>)
    ensures (x + y) + z == x + (y + z)
  {
  }

  /** The events after the space stopped do not matter. */
  lemma SimularAteParar(s: Lugar, eventos: seq<Evento>, i: nat)
    requires i <= |eventos| && Simular(s, eventos[..i]).0.fase == Parado
    ensures Simular(s, eventos) == Simular(s, eventos[..i])
  {
    var a := Simular(s, eventos[..i]);
    SimularConcat(s, eventos[..i], eventos[i..]);
    SimularParado(a.0, eventos[i..]);
    assert eventos[..i] + eventos[i..] == eventos;
    assert a.1 + [] == a.1;
  }

  /** Once the space has stopped, no event changes it and nothing more is sent. */
  lemma {:induction false} SimularParado(s: Lugar, eventos: seq<Evento>)
    requires s.fase == Parado
    ensures Simular(s, eventos) == (s, [])
    decreases |eventos|
  {
    if eventos != [] {
      SimularParado(s, eventos[..|eventos| - 1]);
      assert Simular(s, eventos[..|eventos| - 1]).1 + [] == [];
    }
  }

  /** Along any run the name is kept, the state stays `LIVRE` or `OCUPADO`, and what is sent is
   *  the space's own `INIT` or an update of a valid state. */
  lemma {:induction false} SimularInvariante(s: Lugar, eventos: seq<Evento>)
    requires EstadoValido(s.estado)
    ensures var r := Simular(s, eventos);
      && r.0.nome == s.nome && EstadoValido(r.0.estado)
      && (forall k :: 0 <= k < |r.1| && r.1[k].EnvioInit? ==> r.1[k].nome == s.nome)
      && (forall k :: 0 <= k < |r.1| && r.1[k].EnvioAtualizacao? ==> EstadoValido(r.1[k].estado))
    decreases |eventos|
  {
    if eventos != [] {
      var init := eventos[..|eventos| - 1];
      SimularInvariante(s, init);
      var antes := Simular(s, init);
      var passo := Passo(antes.0, eventos[|eventos| - 1]);
      assert Simular(s, eventos) == (passo.0, antes.1 + passo.1);
      assert forall k :: 0 <= k < |passo.1| ==> (antes.1 + passo.1)[|antes.1| + k] == passo.1[k];
    }
  }

  /**
   * The state changes only in an update pass, and only as `_proximo_estado` says: connection
   * failures and reconnections keep it.
   */
  lemma EstadoSoNoCiclo(s: Lugar, ev: Evento)
    ensures Passo(s, ev).0.estado
         == if s.fase.Registado? && ev.Ciclo? then ProximoEstado(s.estado, ev.u, PO, PL) else s.estado
    ensures Passo(s, ev).0.nome == s.nome
  {
  }

  /**
   * Failures send the space back to connecting: a failed connection, an empty read of the reply
   * to `INIT`, a `ValueError` from it, and an empty read of the reply to an update.
   */
  lemma FalhasReligam(s: Lugar, ev: Evento)
    requires s.fase != Parado
    ensures ev == FalhaLigacao && s.fase == Desligado ==> Passo(s, ev) == (s, [])
    ensures s.fase == Desligado && ev.Ligacao? && ObterId(ev.recebido).Err? && !ObterId(ev.recebido).error.Protocolo? ==>
      Passo(s, ev) == (s, [EnvioInit(s.nome)])
    ensures s.fase.Registado? && ev.Ciclo? && ev.recebido == [] ==>
      Passo(s, ev).0 == Lugar(s.nome, ProximoEstado(s.estado, ev.u, PO, PL), Desligado)
  {
  }

  // ---------------------------------------------------------------------------------------
  // A space talking to the server

  /** A one-parameter message `codificar` writes from safe parts is the text `strip` keeps. */
  lemma MensagemSemEspacos(comando: string, chave: string, valor: string)
    requires comando != [] && Seguro(comando) && Seguro(valor)
    ensures Strip(Codificar(comando, [(chave, valor)])) == Codificar(comando, [(chave, valor)])
  {
    var m := Codificar(comando, [(chave, valor)]);
    CodificarParams(comando, [], chave, valor);
    assert [] + [(chave, valor)] == [(chave, valor)];
    assert m == comando + Delimitador + chave + "=" + valor;
    StripKeeps(comando);
    StripKeeps(valor);
    assert m[0] == comando[0];
    assert m[|m| - 1] == if valor == [] then '=' else valor[|valor| - 1];
    StripKeeps(m);
  }

  /** A reply from safe parts is read back whole, so the space neither stops nor reconnects on it. */
  lemma LerRespostaSegura(comando: string, chave: string, valor: string)
    requires comando != [] && Seguro(comando) && Upper(comando) == comando
    requires '=' !in chave && Seguro(chave) && chave != "comando" && Seguro(valor)
    ensures LerRespostaAtualizacao(Codificar(comando, [(chave, valor)]))
         == Ok(map["comando" := comando, chave := valor])
  {
    MensagemSemEspacos(comando, chave, valor);
    RoundTripUmParametro(comando, chave, valor);
  }

  /** `_obter_id` takes the id of an `OK;;id=<n>` reply. */
  lemma ObterIdAtribuido(lugarId: int)
    ensures ObterId(Registry.RespostaOk("id", IntToString(lugarId))) == Ok(lugarId)
  {
    Registry.SeguroSimples("OK");
    Registry.SeguroSimples("id");
    UpperKeeps("OK");
    Registry.IntToStringSeguro(lugarId);
    MensagemSemEspacos("OK", "id", IntToString(lugarId));
    RoundTripUmParametro("OK", "id", IntToString(lugarId));
    ParseIntToString(lugarId);
  }

  /** An `ERRO` reply to the `INIT` is a `ValueError` that quotes the reply. */
  lemma ObterIdRecusado(texto: string)
    requires Seguro(texto)
    ensures ObterId(Registry.RespostaErro(texto))
         == Err(ValueError("Resposta inesperada ao INIT: " + Registry.RespostaErro(texto)))
  {
    Registry.SeguroSimples("ERRO");
    Registry.SeguroSimples("msg");
    UpperKeeps("ERRO");
    MensagemSemEspacos("ERRO", "msg", texto);
    RoundTripUmParametro("ERRO", "msg", texto);
  }

  /**
   * The server's answer to a space's `INIT`: the space gets the id the server keeps under its
   * name exactly when the name is known or there is room, the same id again for a known name,
   * and otherwise a `ValueError`, never a protocol error, so the space retries.
   */
  lemma IdDoParque(p: Registry.EstadoParque, addr: Registry.Addr, nome: string)
    requires Registry.Inv(p) && nome != [] && Seguro(nome)
    ensures var (resposta, p1) := Registry.Responder(p, addr, Texto(EnvioInit(nome)));
      && (ObterId(resposta).Ok? <==> nome in p.mapaNomes || |p.lugares| < p.capacidade)
      && (ObterId(resposta).Ok? ==> nome in p1.mapaNomes && ObterId(resposta) == Ok(p1.mapaNomes[nome]))
      && (nome in p.mapaNomes ==> ObterId(resposta) == Ok(p.mapaNomes[nome]))
      && (ObterId(resposta).Err? ==> ObterId(resposta).error.ValueError?)
  {
    Registry.ResponderInitMensagem(p, addr, nome);
    IdInit(p, addr, nome);
  }

  lemma IdInit(p: Registry.EstadoParque, addr: Registry.Addr, nome: string)
    requires Registry.Inv(p) && nome != []
    ensures var (resposta, p1) := Registry.ResponderInit(p, addr, nome);
      && (ObterId(resposta).Ok? <==> nome in p.mapaNomes || |p.lugares| < p.capacidade)
      && (ObterId(resposta).Ok? ==> nome in p1.mapaNomes && ObterId(resposta) == Ok(p1.mapaNomes[nome]))
      && (nome in p.mapaNomes ==> ObterId(resposta) == Ok(p.mapaNomes[nome]))
      && (ObterId(resposta).Err? ==> ObterId(resposta).error.ValueError?)
  {
    if nome in p.mapaNomes {
      Registry.InitReconexao(p, addr, nome);
      ObterIdAtribuido(p.mapaNomes[nome]);
    } else if |p.lugares| < p.capacidade {
      Registry.InitNovo(p, addr, nome);
      ObterIdAtribuido(p.idAtual);
    } else {
      Registry.InitNovo(p, addr, nome);
      Registry.SeguroSimples("Capacidade máxima atingida");
      ObterIdRecusado("Capacidade máxima atingida");
    }
  }

  /** A connection pass against the server: the space is registered under the server's id, or retries. */
  lemma LigacaoAoParque(s: Lugar, p: Registry.EstadoParque, addr: Registry.Addr)
    requires s.fase == Desligado && Registry.Inv(p) && s.nome != [] && Seguro(s.nome)
    ensures var (resposta, p1) := Registry.Responder(p, addr, MensagemInit(s.nome));
      s.nome in p.mapaNomes || |p.lugares| < p.capacidade ==> s.nome in p1.mapaNomes
    ensures var (resposta, p1) := Registry.Responder(p, addr, MensagemInit(s.nome));
      Passo(s, Ligacao(resposta))
      == (s.(fase := if s.nome in p.mapaNomes || |p.lugares| < p.capacidade
                     then Registado(p1.mapaNomes[s.nome]) else Desligado),
          [EnvioInit(s.nome)])
  {
    IdDoParque(p, addr, s.nome);
  }

  /** The fault band without `=`: `descodificar` refuses `UPDATE;;id` with `FormatoInvalido`. */
  lemma MalFormadaRecusada(lugarId: int, estado: string)
    ensures Strip(Texto(EnvioAtualizacao(MalFormada, lugarId, estado)))
         == Texto(EnvioAtualizacao(MalFormada, lugarId, estado))
    ensures Descodificado(Texto(EnvioAtualizacao(MalFormada, lugarId, estado)))
         == Err(FormatoInvalido("Parâmetro mal formatado: id"))
  {
    assert Texto(EnvioAtualizacao(MalFormada, lugarId, estado)) == "UPDATE;;id";
    UpdateIdSemIgual();
  }

  /** `UPDATE;;id` is an instance of `UpdateSemIgual`. */
  lemma UpdateIdSemIgual()
    ensures Strip("UPDATE;;id") == "UPDATE;;id"
    ensures Descodificado("UPDATE;;id") == Err(FormatoInvalido("Parâmetro mal formatado: id"))
  {
    var c, k := "UPDATE", "id";
    PalavrasDasBandas();
    UpdateSemIgual(c, k);
    assert c + Delimitador + k == "UPDATE;;id";
    assert "Parâmetro mal formatado: " + k == "Parâmetro mal formatado: id";
  }

  /** A word of capital letters; a word of small letters. */
  predicate Maiusculas(c: string) {
    c != [] && forall i :: 0 <= i < |c| ==> 'A' <= c[i] <= 'Z'
  }

  predicate Minusculas(k: string) {
    k != [] && forall i :: 0 <= i < |k| ==> 'a' <= k[i] <= 'z'
  }

  /** The words the fault bands write: the commands `UPDATE` and `START`, the key `id`. */
  lemma PalavrasDasBandas()
    ensures Maiusculas("UPDATE") && Maiusculas("START") && Minusculas("id")
  {
  }

  /**
   * A command word followed by a key word with no `=` after it, like the malformed band's
   * `UPDATE;;id`: the text is stripped already, and it fails with `FormatoInvalido` naming the key.
   */
  lemma UpdateSemIgual(c: string, k: string)
    requires Maiusculas(c) && Minusculas(k)
    ensures Strip(c + Delimitador + k) == c + Delimitador + k
    ensures Descodificado(c + Delimitador + k) == Err(FormatoInvalido("Parâmetro mal formatado: " + k))
  {
    IsoladoDelimitador(c);
    SemDelimitador(k);
    StripKeeps(c);
    StripKeeps(k);
    assert IndexOf(k, '=') == |k|;
    DescodificadoSemIgual(c, k);
    var m := c + Delimitador + k;
    assert m[0] == c[0] && m[|m| - 1] == k[|k| - 1];
    StripKeeps(m);
  }

  /** The server answers the malformed band with the decoder's error and changes nothing. */
  lemma RespostaMalFormada(p: Registry.EstadoParque, addr: Registry.Addr, lugarId: int, estado: string)
    ensures Registry.Responder(p, addr, Texto(EnvioAtualizacao(MalFormada, lugarId, estado)))
         == (Registry.RespostaErro("Parâmetro mal formatado: id"), p)
  {
    var m := Texto(EnvioAtualizacao(MalFormada, lugarId, estado));
    MalFormadaRecusada(lugarId, estado);
    RespostaRecusada(p, addr, m, FormatoInvalido("Parâmetro mal formatado: id"));
  }

  /** A message `descodificar` refuses is answered with the error's text, and nothing changes. */
  lemma RespostaRecusada(p: Registry.EstadoParque, addr: Registry.Addr, m: string, e: ProtocoloErro)
    requires Strip(m) == m && Descodificado(m) == Err(e)
    ensures Registry.Responder(p, addr, m) == (Registry.RespostaErro(e.msg), p)
  {
  }

  /** The server answers `START` as an unknown command and changes nothing. */
  lemma RespostaComandoDesconhecido(p: Registry.EstadoParque, addr: Registry.Addr, lugarId: int, estado: string)
    ensures Registry.Responder(p, addr, Texto(EnvioAtualizacao(ComandoDesconhecido, lugarId, estado)))
         == (Registry.RespostaErro("Comando inválido: START"), p)
  {
    var m := Texto(EnvioAtualizacao(ComandoDesconhecido, lugarId, estado));
    assert m == "START";
    PalavrasDasBandas();
    RespostaPalavraDesconhecida(p, addr, m);
    assert "Comando inválido: " + m == "Comando inválido: START";
  }

  /** Any bare word of capital letters other than `INIT`, `UPDATE` and `INFO` is refused as an unknown command. */
  lemma RespostaPalavraDesconhecida(p: Registry.EstadoParque, addr: Registry.Addr, c: string)
    requires Maiusculas(c) && c != "INIT" && c != "UPDATE" && c != "INFO"
    ensures Registry.Responder(p, addr, c) == (Registry.RespostaErro("Comando inválido: " + c), p)
  {
    PalavraSimples(c);
    Registry.ClassificarDados(c, map["comando" := c]);
  }

  /**
   * The server answers the id 9999 with `'ID inválido'` when its capacity is below 9999 (the
   * configured capacity is 25): ids are handed out from 1 and never beyond the capacity.
   */
  lemma RespostaIdInexistente(p: Registry.EstadoParque, addr: Registry.Addr, estado: string)
    requires Registry.Inv(p) && p.capacidade < 9999 && Seguro(estado)
    ensures Registry.Responder(p, addr, MensagemUpdate(9999, estado)) == (Registry.RespostaErro("'ID inválido'"), p)
  {
    Registry.IdsAteCapacidade(p);
    Registry.ResponderUpdateIdMensagem(p, addr, 9999, estado);
    Registry.UpdateIdResultados(p, 9999, estado);
  }

  /** The server answers the state `INVALIDO` with `Estado inválido` and changes nothing. */
  lemma RespostaEstadoInvalido(p: Registry.EstadoParque, addr: Registry.Addr, lugarId: int)
    requires Registry.Inv(p) && lugarId in p.lugares
    ensures Registry.Responder(p, addr, MensagemUpdate(lugarId, "INVALIDO"))
         == (Registry.RespostaErro("Estado inválido"), p)
  {
    Registry.SeguroSimples("INVALIDO");
    UpperKeeps("INVALIDO");
    Registry.ResponderUpdateIdMensagem(p, addr, lugarId, "INVALIDO");
    Registry.UpdateIdResultados(p, lugarId, "INVALIDO");
  }

  /** The server records a correct update and answers with the occupied count over the capacity. */
  lemma RespostaCorreta(p: Registry.EstadoParque, addr: Registry.Addr, lugarId: int, estado: string)
    requires Registry.Inv(p) && lugarId in p.lugares && EstadoValido(estado)
    ensures var (resposta, p1) := Registry.Responder(p, addr, MensagemUpdate(lugarId, estado));
      && p1 == p.(lugares := p.lugares[lugarId := estado])
      && resposta == Registry.RespostaOk("msg", Registry.Atualizado(Registry.ContarOcupados(p1.lugares), p.capacidade))
      && Registry.Inv(p1)
  {
    Registry.SeguroSimples(estado);
    UpperKeeps(estado);
    Registry.ResponderUpdateIdMensagem(p, addr, lugarId, estado);
    Registry.UpdateIdResultados(p, lugarId, estado);
  }

  /** The text of a successful `UPDATE` reply is safe to send. */
  lemma AtualizadoSeguro(ocupados: int, capacidade: int)
    ensures Seguro(Registry.Atualizado(ocupados, capacidade))
  {
    var a := IntToString(ocupados);
    var b := IntToString(capacidade);
    DigitosSemPontoEVirgula(ocupados);
    DigitosSemPontoEVirgula(capacidade);
    var t := Registry.Atualizado(ocupados, capacidade);
    assert t == "estado atualizado (" + a + "/" + b + ")";
    assert t[0] == 'e' && t[|t| - 1] == ')';
    assert forall k :: 0 <= k < |t| ==> t[k] != ';' by {
      forall k | 0 <= k < |t| ensures t[k] != ';' {
        if k < 19 {
          assert t[k] == "estado atualizado ("[k];
        } else if k < 19 + |a| {
          assert t[k] == a[k - 19];
        } else if k == 19 + |a| {
          assert t[k] == '/';
        } else if k < 20 + |a| + |b| {
          assert t[k] == b[k - 20 - |a|];
        } else {
          assert t[k] == ')';
        }
      }
    }
    Registry.SeguroSimples(t);
  }

  /** The decimal text of an integer holds no `;`. */
  lemma DigitosSemPontoEVirgula(i: int)
    ensures forall k :: 0 <= k < |IntToString(i)| ==> IntToString(i)[k] != ';'
  {
    var s := IntToString(i);
    var d := NatToString(if i < 0 then -i else i);
    assert forall k :: 0 <= k < |d| ==> IsDigit(d[k]);
    assert forall k :: 0 <= k < |s| ==> s[k] == '-' || IsDigit(s[k]);
  }

  /** Every reply the server gives to an update reads back, so the space stays connected. */
  lemma RespostasLegiveis(texto: string, ocupados: int, capacidade: int)
    requires Seguro(texto)
    ensures LerRespostaAtualizacao(Registry.RespostaErro(texto)) == Ok(map["comando" := "ERRO", "msg" := texto])
    ensures var v := Registry.Atualizado(ocupados, capacidade);
      LerRespostaAtualizacao(Registry.RespostaOk("msg", v)) == Ok(map["comando" := "OK", "msg" := v])
  {
    Registry.SeguroSimples("ERRO");
    Registry.SeguroSimples("OK");
    Registry.SeguroSimples("msg");
    UpperKeeps("ERRO");
    UpperKeeps("OK");
    LerRespostaSegura("ERRO", "msg", texto);
    AtualizadoSeguro(ocupados, capacidade);
    LerRespostaSegura("OK", "msg", Registry.Atualizado(ocupados, capacidade));
  }

  /**
   * What a band's answer does: only the correct band changes the server, and only at the
   * space's own id; only it is answered `OK`; and the answer reads back, so the space keeps its
   * connection and its id.
   */
  ghost predicate Atendida(p: Registry.EstadoParque, banda: Banda, lugarId: int, estado: string,
                           r: (string, Registry.EstadoParque))
  {
    && r.1 == (if banda == Correta then p.(lugares := p.lugares[lugarId := estado]) else p)
    && Registry.Inv(r.1)
    && LerRespostaAtualizacao(r.0).Ok?
    && (LerRespostaAtualizacao(r.0).value["comando"] == "OK" <==> banda == Correta)
  }

  /** A refusal with a safe text leaves the server as it was and reads back as `ERRO`. */
  lemma AtendidaRecusa(p: Registry.EstadoParque, banda: Banda, lugarId: int, estado: string,
                       r: (string, Registry.EstadoParque), texto: string)
    requires Registry.Inv(p) && banda != Correta && Seguro(texto)
    requires r == (Registry.RespostaErro(texto), p)
    ensures Atendida(p, banda, lugarId, estado, r)
  {
    RespostasLegiveis(texto, 0, 0);
  }

  /** The texts of the server's refusals of the fault bands are safe to send. */
  lemma MalFormadoSeguro()
    ensures Seguro("Parâmetro mal formatado: id")
  {
    Registry.SeguroSimples("Parâmetro mal formatado: id");
  }

  lemma IdInvalidoSeguro()
    ensures Seguro("'ID inválido'")
  {
    Registry.SeguroSimples("'ID inválido'");
  }

  lemma ComandoInvalidoSeguro()
    ensures Seguro("Comando inválido: START")
  {
    Registry.SeguroSimples("Comando inválido: START");
  }

  lemma EstadoInvalidoSeguro()
    ensures Seguro("Estado inválido")
  {
    Registry.SeguroSimples("Estado inválido");
  }

  lemma EstadoSeguro(estado: string)
    requires EstadoValido(estado)
    ensures Seguro(estado)
  {
    Registry.SeguroSimples(estado);
  }

  /** The server's answer to each band does what `Atendida` says. */
  lemma RespostaAtualizacao(p: Registry.EstadoParque, addr: Registry.Addr, banda: Banda, lugarId: int, estado: string)
    requires Registry.Inv(p) && lugarId in p.lugares && p.capacidade < 9999 && EstadoValido(estado)
    ensures Atendida(p, banda, lugarId, estado,
                     Registry.Responder(p, addr, Texto(EnvioAtualizacao(banda, lugarId, estado))))
  {
    match banda
    case MalFormada => AtendidaMalFormada(p, addr, lugarId, estado);
    case IdInexistente => AtendidaIdInexistente(p, addr, lugarId, estado);
    case ComandoDesconhecido => AtendidaComandoDesconhecido(p, addr, lugarId, estado);
    case EstadoInvalido => AtendidaEstadoInvalido(p, addr, lugarId, estado);
    case Correta => AtendidaCorreta(p, addr, lugarId, estado);
  }

  lemma AtendidaMalFormada(p: Registry.EstadoParque, addr: Registry.Addr, lugarId: int, estado: string)
    requires Registry.Inv(p)
    ensures Atendida(p, MalFormada, lugarId, estado,
                     Registry.Responder(p, addr, Texto(EnvioAtualizacao(MalFormada, lugarId, estado))))
  {
    RespostaMalFormada(p, addr, lugarId, estado);
    MalFormadoSeguro();
    AtendidaRecusa(p, MalFormada, lugarId, estado,
                   Registry.Responder(p, addr, Texto(EnvioAtualizacao(MalFormada, lugarId, estado))),
                   "Parâmetro mal formatado: id");
  }

  lemma AtendidaIdInexistente(p: Registry.EstadoParque, addr: Registry.Addr, lugarId: int, estado: string)
    requires Registry.Inv(p) && p.capacidade < 9999 && EstadoValido(estado)
    ensures Atendida(p, IdInexistente, lugarId, estado,
                     Registry.Responder(p, addr, Texto(EnvioAtualizacao(IdInexistente, lugarId, estado))))
  {
    var m := Texto(EnvioAtualizacao(IdInexistente, lugarId, estado));
    assert m == MensagemUpdate(9999, estado);
    EstadoSeguro(estado);
    RespostaIdInexistente(p, addr, estado);
    IdInvalidoSeguro();
    AtendidaRecusa(p, IdInexistente, lugarId, estado, Registry.Responder(p, addr, m), "'ID inválido'");
  }

  /**
   * In a lot with a space 9999, which takes a capacity of at least 9999, the unknown-id band is not
   * refused: the server sets space 9999 to the state sent and answers `OK`.
   */
  lemma IdInexistenteExistente(p: Registry.EstadoParque, addr: Registry.Addr, lugarId: int, estado: string)
    requires Registry.Inv(p) && 9999 in p.lugares && EstadoValido(estado)
    ensures p.capacidade >= 9999
    ensures var r := Registry.Responder(p, addr, Texto(EnvioAtualizacao(IdInexistente, lugarId, estado)));
      && r.1 == p.(lugares := p.lugares[9999 := estado])
      && r.0 == Registry.RespostaOk("msg", Registry.Atualizado(Registry.ContarOcupados(r.1.lugares), p.capacidade))
  {
    Registry.IdsAteCapacidade(p);
    var m := Texto(EnvioAtualizacao(IdInexistente, lugarId, estado));
    assert m == MensagemUpdate(9999, estado);
    RespostaCorreta(p, addr, 9999, estado);
  }

  lemma AtendidaComandoDesconhecido(p: Registry.EstadoParque, addr: Registry.Addr, lugarId: int, estado: string)
    requires Registry.Inv(p)
    ensures Atendida(p, ComandoDesconhecido, lugarId, estado,
                     Registry.Responder(p, addr, Texto(EnvioAtualizacao(ComandoDesconhecido, lugarId, estado))))
  {
    RespostaComandoDesconhecido(p, addr, lugarId, estado);
    ComandoInvalidoSeguro();
    AtendidaRecusa(p, ComandoDesconhecido, lugarId, estado,
                   Registry.Responder(p, addr, Texto(EnvioAtualizacao(ComandoDesconhecido, lugarId, estado))),
                   "Comando inválido: START");
  }

  lemma AtendidaEstadoInvalido(p: Registry.EstadoParque, addr: Registry.Addr, lugarId: int, estado: string)
    requires Registry.Inv(p) && lugarId in p.lugares
    ensures Atendida(p, EstadoInvalido, lugarId, estado,
                     Registry.Responder(p, addr, Texto(EnvioAtualizacao(EstadoInvalido, lugarId, estado))))
  {
    var m := Texto(EnvioAtualizacao(EstadoInvalido, lugarId, estado));
    assert m == MensagemUpdate(lugarId, "INVALIDO");
    RespostaEstadoInvalido(p, addr, lugarId);
    EstadoInvalidoSeguro();
    AtendidaRecusa(p, EstadoInvalido, lugarId, estado, Registry.Responder(p, addr, m), "Estado inválido");
  }

  lemma AtendidaCorreta(p: Registry.EstadoParque, addr: Registry.Addr, lugarId: int, estado: string)
    requires Registry.Inv(p) && lugarId in p.lugares && EstadoValido(estado)
    ensures Atendida(p, Correta, lugarId, estado,
                     Registry.Responder(p, addr, Texto(EnvioAtualizacao(Correta, lugarId, estado))))
  {
    var m := Texto(EnvioAtualizacao(Correta, lugarId, estado));
    assert m == MensagemUpdate(lugarId, estado);
    RespostaCorreta(p, addr, lugarId, estado);
    var r := Registry.Responder(p, addr, m);
    RespostasLegiveis("", Registry.ContarOcupados(r.1.lugares), p.capacidade);
  }

  /**
   * One update pass against the server: the space sends one update with its new state, the
   * server answers it as `Atendida` says, and the space stays registered under the same id.
   */
  lemma CicloAtendido(s: Lugar, u: real, r: real, p: Registry.EstadoParque, addr: Registry.Addr)
    requires s.fase.Registado? && EstadoValido(s.estado)
    requires Registry.Inv(p) && s.fase.lugarId in p.lugares && p.capacidade < 9999
    ensures var estado := ProximoEstado(s.estado, u, PO, PL);
      var envio := EnvioAtualizacao(BandaDe(r), s.fase.lugarId, estado);
      var resposta := Registry.Responder(p, addr, Texto(envio));
      && Atendida(p, BandaDe(r), s.fase.lugarId, estado, resposta)
      && Passo(s, Ciclo(u, r, resposta.0)) == (s.(estado := estado), [envio])
  {
    var estado := ProximoEstado(s.estado, u, PO, PL);
    var envio := EnvioAtualizacao(BandaDe(r), s.fase.lugarId, estado);
    RespostaAtualizacao(p, addr, BandaDe(r), s.fase.lugarId, estado);
    var resposta := Registry.Responder(p, addr, Texto(envio));
    PassoCiclo(s, u, r, resposta.0);
  }

  /** An update pass whose reply reads back keeps the connection and the id. */
  lemma PassoCiclo(s: Lugar, u: real, r: real, recebido: string)
    requires s.fase.Registado? && LerRespostaAtualizacao(recebido).Ok?
    ensures var estado := ProximoEstado(s.estado, u, PO, PL);
      Passo(s, Ciclo(u, r, recebido)) == (s.(estado := estado), [EnvioAtualizacao(BandaDe(r), s.fase.lugarId, estado)])
  {
  }
}
