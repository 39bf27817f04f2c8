/**
 * The parking lot server of `parque.py`: the registry of spaces (`Parque`) and what
 * `handle_client` does with every message a space sends it over TCP.
 *
 * `EstadoParque` is the registry as a value and the functions over it say what each step
 * of the server yields; the class `Parque` holds the same fields and its methods change them
 * in place, each proved to end in the state the matching function gives.
 */
module Registry {
  import opened Results
  import opened Text
  import opened Codec

  const Livre: string := "LIVRE"
  const Ocupado: string := "OCUPADO"

  /** The address of a connected space, the key of `clientes`. */
  datatype Addr = Addr(host: string, port: int)

  /** The exceptions the server turns into `ERRO` replies. */
  datatype Falha = ValueError(msg: string) | KeyError(msg: string) | Protocolo(erro: ProtocoloErro)
  {
    /** `str(e)`: a `KeyError` shows its argument in quotes. */
    function Texto(): string {
      match this
      case ValueError(m) => m
      case KeyError(m) => Repr(m)
      case Protocolo(e) => e.msg
    }
  }

  /**
   * The fields of a `Parque` the TCP server reads and writes. `descricao` stands for the
   * first lines of `info()` (name, location and fares), which no operation here changes.
   */
  datatype EstadoParque = EstadoParque(
    capacidade: nat,
    descricao: string,
    lugares: map<int, string>,
    mapaNomes: map<string, int>,
    clientes: map<Addr, seq<int>>,
    idAtual: int)

  /**
   * What the server keeps true: the ids handed out are exactly those below `idAtual` (none is
   * ever removed), there are never more spaces than the capacity, each space is free or
   * occupied, every name points at its own registered space and every connection owns
   * registered spaces only.
   */
  ghost predicate Inv(p: EstadoParque) {
    && p.idAtual >= 1
    && (forall id :: id in p.lugares ==> 1 <= id < p.idAtual)
    && p.idAtual == |p.lugares| + 1
    && |p.lugares| <= p.capacidade
    && (forall id :: id in p.lugares ==> p.lugares[id] == Livre || p.lugares[id] == Ocupado)
    && (forall n :: n in p.mapaNomes ==> p.mapaNomes[n] in p.lugares)
    && (forall n, m :: n in p.mapaNomes && m in p.mapaNomes && n != m ==> p.mapaNomes[n] != p.mapaNomes[m])
    && (forall a, i :: a in p.clientes && 0 <= i < |p.clientes[a]| ==> p.clientes[a][i] in p.lugares)
  }

  /** A new `Parque`: no spaces, no names, no connections, and the first id is 1. */
  function Novo(capacidade: nat, descricao: string): (p: EstadoParque)
    ensures Inv(p) && p.capacidade == capacidade && ContarOcupados(p.lugares) == 0
  {
    EstadoParque(capacidade, descricao, map[], map[], map[], 1)
  }

  // ---------------------------------------------------------------------------------------
  // The operations of `Parque`

  /** `registar_lugar()`: the next id as a new free space, or `ValueError` when the lot is full. */
  function Registar(p: EstadoParque): (Result<int, Falha>, EstadoParque) {
    if |p.lugares| >= p.capacidade then (Err(ValueError("Capacidade máxima atingida")), p)
    else (Ok(p.idAtual), p.(lugares := p.lugares[p.idAtual := Livre], idAtual := p.idAtual + 1))
  }

  /** `atualizar_estado(lugar_id, estado)`: `None` when it returns, else the exception raised. */
  function Atualizar(p: EstadoParque, lugarId: int, estado: string): (Option<Falha>, EstadoParque) {
    if lugarId !in p.lugares then (Some(KeyError("ID inválido")), p)
    else if estado != Livre && estado != Ocupado then (Some(ValueError("Estado inválido")), p)
    else (None, p.(lugares := p.lugares[lugarId := estado]))
  }

  /** `contar_ocupados()`: how many spaces are occupied. */
  function ContarOcupados(lugares: map<int, string>): nat {
    |set id | id in lugares && lugares[id] == Ocupado|
  }

  /** The free count `info()` shows: the capacity less the occupied spaces. */
  function Livres(p: EstadoParque): int {
    p.capacidade - ContarOcupados(p.lugares)
  }

  /** `info()`: the fixed description, then the line with the free count and the capacity. */
  function InfoTexto(p: EstadoParque): string {
    p.descricao + "Lugares livres: " + IntToString(Livres(p)) + "/" + IntToString(p.capacidade) + "\n"
  }

  // ---------------------------------------------------------------------------------------
  // The TCP server, `handle_client`

  /** What a received message asks for, after `descodificar` and the checks on its parameters. */
  datatype Pedido =
    | Invalido(erro: ProtocoloErro)
    | Init(nome: string)
    | UpdateIncompleto
    | Update(idTexto: string, estado: string)
    | Info
    | Desconhecido(comando: string)

  /** How `handle_client` reads a received text: stripped, decoded, then split by command. */
  function Classificar(mensagem: string): Pedido {
    match Descodificado(Strip(mensagem))
    case Err(e) => Invalido(e)
    case Ok(dados) => PedidoDe(dados)
  }

  /** The request a decoded message makes, by its `comando` and the parameters that command needs. */
  function PedidoDe(dados: Dados): Pedido
    requires "comando" in dados
  {
    var comando := dados["comando"];
    if comando == "INIT" then Init(if "nome" in dados then dados["nome"] else "")
    else if comando == "UPDATE" then
      if "id" in dados && "estado" in dados then Update(dados["id"], dados["estado"]) else UpdateIncompleto
    else if comando == "INFO" then Info
    else Desconhecido(comando)
  }

  /** The reply for any exception: `ERRO` with the exception's text under `msg`. */
  function RespostaErro(texto: string): string {
    Codificar("ERRO", [("msg", texto)])
  }

  function RespostaOk(chave: string, valor: string): string {
    Codificar("OK", [(chave, valor)])
  }

  const PrefixoErroInt: string := "invalid literal for int() with base 10: "

  /**
   * The text of the `ValueError` that `int()` raises for a string it cannot read: the repr of
   * the string, cut after 200 characters (CPython formats it with `%.200R`).
   */
  function ErroInt(s: string): string {
    var r := Repr(s);
    PrefixoErroInt + (if |r| <= 200 then r else r[..200])
  }

  /**
   * A text of up to 198 characters is shown whole, in quotes; a longer one is cut after its
   * first 199 characters, opening quote included and closing quote lost.
   */
  lemma ErroIntCorte(s: string)
    ensures |s| <= 198 ==> ErroInt(s) == PrefixoErroInt + "'" + s + "'"
    ensures |s| > 198 ==> ErroInt(s) == PrefixoErroInt + "'" + s[..199]
    ensures |ErroInt(s)| <= |PrefixoErroInt| + 200
  {
    var r := Repr(s);
    if |s| > 198 {
      assert r[..200] == "'" + s[..199];
    }
  }

  /** The spaces a connection owns; an address not yet seen owns none. */
  function Dono(clientes: map<Addr, seq<int>>, addr: Addr): seq<int> {
    if addr in clientes then clientes[addr] else []
  }

  /** `INIT` with name `nome` (empty when missing): reconnect under the same id, or register. */
  function ResponderInit(p: EstadoParque, addr: Addr, nome: string): (string, EstadoParque) {
    if nome == "" then (RespostaErro("Nome do lugar em falta"), p)
    else if nome in p.mapaNomes then
      var lugarId := p.mapaNomes[nome];
      var dono := Dono(p.clientes, addr);
      (RespostaOk("id", IntToString(lugarId)),
       p.(lugares := p.lugares[lugarId := Livre],
          clientes := p.clientes[addr := if lugarId in dono then dono else dono + [lugarId]]))
    else if |p.lugares| >= p.capacidade then (RespostaErro("Capacidade máxima atingida"), p)
    else
      match Registar(p)
      case (Err(f), p1) => (RespostaErro(f.Texto()), p1)
      case (Ok(lugarId), p1) =>
        (RespostaOk("id", IntToString(lugarId)),
         p1.(mapaNomes := p1.mapaNomes[nome := lugarId],
             clientes := p1.clientes[addr := Dono(p1.clientes, addr) + [lugarId]]))
  }

  /** `UPDATE` with both parameters: `int()` of the id, then `atualizar_estado` of the upper-cased state. */
  function ResponderUpdate(p: EstadoParque, idTexto: string, estado: string): (string, EstadoParque) {
    match ParseInt(idTexto)
    case None => (RespostaErro(ErroInt(idTexto)), p)
    case Some(lugarId) => ResponderUpdateId(p, lugarId, estado)
  }

  /** `UPDATE` once the id is read: the new state and the occupied count, or the error. */
  function ResponderUpdateId(p: EstadoParque, lugarId: int, estado: string): (string, EstadoParque) {
    match Atualizar(p, lugarId, Upper(estado))
    case (Some(f), p1) => (RespostaErro(f.Texto()), p1)
    case (None, p1) =>
      (RespostaOk("msg", Atualizado(ContarOcupados(p1.lugares), p1.capacidade)), p1)
  }

  /** The text of a successful `UPDATE` reply: the occupied count over the capacity. */
  function Atualizado(ocupados: int, capacidade: int): string {
    "estado atualizado (" + IntToString(ocupados) + "/" + IntToString(capacidade) + ")"
  }

  /** One pass of the receive loop of `handle_client`: the reply to `mensagem` and the new state. */
  function Responder(p: EstadoParque, addr: Addr, mensagem: string): (string, EstadoParque) {
    Atender(p, addr, Classificar(mensagem))
  }

  /** The reply to a classified request and the new state. */
  function Atender(p: EstadoParque, addr: Addr, pedido: Pedido): (string, EstadoParque) {
    match pedido
    case Invalido(e) => (RespostaErro(e.msg), p)
    case Init(nome) => ResponderInit(p, addr, nome)
    case UpdateIncompleto => (RespostaErro("Faltam parâmetros obrigatórios"), p)
    case Update(idTexto, estado) => ResponderUpdate(p, idTexto, estado)
    case Info => (RespostaOk("info", InfoTexto(p)), p)
    case Desconhecido(comando) => (RespostaErro("Comando inválido: " + comando), p)
  }

  /** A new connection gets an empty list of owned spaces unless its address is known. */
  function Ligar(p: EstadoParque, addr: Addr): EstadoParque {
    if addr in p.clientes then p else p.(clientes := p.clientes[addr := []])
  }

  /** The registered spaces with those among `ids` set free. */
  function LibertarIds(lugares: map<int, string>, ids: seq<int>): map<int, string> {
    map id | id in lugares :: if id in ids then Livre else lugares[id]
  }

  /** When a connection ends, the spaces it owns become free; names and owners are kept. */
  function Libertar(p: EstadoParque, addr: Addr): EstadoParque {
    if addr in p.clientes then p.(lugares := LibertarIds(p.lugares, p.clientes[addr])) else p
  }

  /** The replies to the messages of one connection, one each, in order, and the state after them. */
  function Conversa(p: EstadoParque, addr: Addr, mensagens: seq<string>): (r: (seq<string>, EstadoParque))
    ensures |r.0| == |mensagens|
    decreases |mensagens|
  {
    if mensagens == [] then ([], p)
    else
      var antes := Conversa(p, addr, mensagens[..|mensagens| - 1]);
      var depois := Responder(antes.1, addr, mensagens[|mensagens| - 1]);
      (antes.0 + [depois.0], depois.1)
  }

  /** A whole connection: registered on arrival, the replies, then its spaces set free. */
  function Sessao(p: EstadoParque, addr: Addr, mensagens: seq<string>): (seq<string>, EstadoParque) {
    var r := Conversa(Ligar(p, addr), addr, mensagens);
    (r.0, Libertar(r.1, addr))
  }

  // ---------------------------------------------------------------------------------------
  // The registry in place

  class Parque {
    const capacidade: nat
    const descricao: string
    var lugares: map<int, string>
    var mapaNomes: map<string, int>
    var clientes: map<Addr, seq<int>>
    var idAtual: int

    function Estado(): EstadoParque
      reads this
    {
      EstadoParque(capacidade, descricao, lugares, mapaNomes, clientes, idAtual)
    }

    ghost predicate Valid()
      reads this
    {
      Inv(Estado())
    }

    constructor (capacidade: nat, descricao: string)
      ensures Estado() == Novo(capacidade, descricao)
      ensures Valid()
    {
      this.capacidade := capacidade;
      this.descricao := descricao;
      lugares := map[];
      mapaNomes := map[];
      clientes := map[];
      idAtual := 1;
    }

    method RegistarLugar() returns (r: Result<int, Falha>)
      modifies this
      ensures (r, Estado()) == Registar(old(Estado()))
    {
      if |lugares| >= capacidade {
        return Err(ValueError("Capacidade máxima atingida"));
      }
      var lugarId := idAtual;
      lugares := lugares[lugarId := Livre];
      idAtual := idAtual + 1;
      return Ok(lugarId);
    }

    method AtualizarEstado(lugarId: int, estado: string) returns (falha: Option<Falha>)
      modifies this
      ensures (falha, Estado()) == Atualizar(old(Estado()), lugarId, estado)
    {
      if lugarId !in lugares {
        return Some(KeyError("ID inválido"));
      }
      if estado != Livre && estado != Ocupado {
        return Some(ValueError("Estado inválido"));
      }
      lugares := lugares[lugarId := estado];
      return None;
    }

    method TratarInit(addr: Addr, nome: string) returns (resposta: string)
      modifies this
      ensures (resposta, Estado()) == ResponderInit(old(Estado()), addr, nome)
    {
      if nome == "" {
        return RespostaErro("Nome do lugar em falta");
      }
      if nome in mapaNomes {
        var lugarId := mapaNomes[nome];
        lugares := lugares[lugarId := Livre];
        if addr !in clientes {
          clientes := clientes[addr := []];
        }
        assert clientes[addr] == Dono(old(clientes), addr);
        if lugarId !in clientes[addr] {
          clientes := clientes[addr := clientes[addr] + [lugarId]];
        }
        assert clientes == old(clientes)[addr := clientes[addr]];
        return RespostaOk("id", IntToString(lugarId));
      }
      if |lugares| >= capacidade {
        return RespostaErro("Capacidade máxima atingida");
      }
      var r := RegistarLugar();
      match r
      case Err(f) =>
        resposta := RespostaErro(f.Texto());
      case Ok(lugarId) =>
        mapaNomes := mapaNomes[nome := lugarId];
        if addr !in clientes {
          clientes := clientes[addr := []];
        }
        assert clientes[addr] == Dono(old(clientes), addr);
        clientes := clientes[addr := clientes[addr] + [lugarId]];
        assert clientes == old(clientes)[addr := Dono(old(clientes), addr) + [lugarId]];
        resposta := RespostaOk("id", IntToString(lugarId));
    }

    method TratarUpdate(idTexto: string, estado: string) returns (resposta: string)
      modifies this
      ensures (resposta, Estado()) == ResponderUpdate(old(Estado()), idTexto, estado)
    {
      var idInt := ParseInt(idTexto);
      if idInt.None? {
        return RespostaErro(ErroInt(idTexto));
      }
      assert ResponderUpdate(old(Estado()), idTexto, estado) == ResponderUpdateId(old(Estado()), idInt.value, estado);
      var falha := AtualizarEstado(idInt.value, Upper(estado));
      if falha.Some? {
        return RespostaErro(falha.value.Texto());
      }
      var ocupados := ContarOcupados(lugares);
      resposta := RespostaOk("msg", Atualizado(ocupados, capacidade));
    }

    /** The body of the receive loop of `handle_client` for one received text. */
    method TratarMensagem(addr: Addr, mensagem: string) returns (resposta: string)
      modifies this
      ensures (resposta, Estado()) == Responder(old(Estado()), addr, mensagem)
    {
      var r := Descodificar(Strip(mensagem));
      match r
      case Err(e) =>
        resposta := RespostaErro(e.msg);
      case Ok(dados) =>
        resposta := TratarPedido(addr, dados);
    }

    /** The dispatch on `comando` of a decoded message. */
    method TratarPedido(addr: Addr, dados: Dados) returns (resposta: string)
      requires "comando" in dados
      modifies this
      ensures (resposta, Estado()) == Atender(old(Estado()), addr, PedidoDe(dados))
    {
      var comando := dados["comando"];
      if comando == "INIT" {
        var nome := if "nome" in dados then dados["nome"] else "";
        resposta := TratarInit(addr, nome);
      } else if comando == "UPDATE" {
        if "id" !in dados || "estado" !in dados {
          resposta := RespostaErro("Faltam parâmetros obrigatórios");
        } else {
          resposta := TratarUpdate(dados["id"], dados["estado"]);
        }
      } else if comando == "INFO" {
        resposta := RespostaOk("info", InfoTexto(Estado()));
      } else {
        resposta := RespostaErro("Comando inválido: " + comando);
      }
    }

    /** The end of `handle_client`: every space the connection owns is set free. */
    method Desligar(addr: Addr)
      modifies this
      ensures Estado() == Libertar(old(Estado()), addr)
    {
      if addr in clientes {
        var ids := clientes[addr];
        var i := 0;
        while i < |ids|
          invariant 0 <= i <= |ids|
          invariant lugares == LibertarIds(old(lugares), ids[..i])
          invariant mapaNomes == old(mapaNomes) && clientes == old(clientes) && idAtual == old(idAtual)
        {
          LibertarIdsSnoc(old(lugares), ids[..i], ids[i]);
          assert ids[..i + 1] == ids[..i] + [ids[i]];
          assert ids[i] in lugares <==> ids[i] in old(lugares);
          if ids[i] in lugares {
            lugares := lugares[ids[i] := Livre];
          }
          i := i + 1;
        }
        assert ids[..i] == ids;
      }
    }

    /** The receive loop of `handle_client`: one reply per received text, in order. */
    method Conversar(addr: Addr, recebidas: seq<string>) returns (respostas: seq<string>)
      modifies this
      ensures (respostas, Estado()) == Conversa(old(Estado()), addr, recebidas)
    {
      respostas := [];
      var i := 0;
      while i < |recebidas|
        invariant 0 <= i <= |recebidas|
        invariant (respostas, Estado()) == Conversa(old(Estado()), addr, recebidas[..i])
      {
        ghost var prefixo := recebidas[..i + 1];
        assert prefixo[..i] == recebidas[..i] && prefixo[i] == recebidas[i];
        var resposta := TratarMensagem(addr, recebidas[i]);
        respostas := respostas + [resposta];
        i := i + 1;
      }
      assert recebidas[..i] == recebidas;
    }

    /** `handle_client` for a connection that receives `recebidas` and then closes. */
    method AtenderCliente(addr: Addr, recebidas: seq<string>) returns (respostas: seq<string>)
      requires Valid()
      modifies this
      ensures (respostas, Estado()) == Sessao(old(Estado()), addr, recebidas)
      ensures Valid()
    {
      if addr !in clientes {
        clientes := clientes[addr := []];
      }
      ghost var inicio := Estado();
      assert inicio == Ligar(old(Estado()), addr);
      respostas := Conversar(addr, recebidas);
      SessaoPreserva(old(Estado()), addr, recebidas);
      Desligar(addr);
    }
  }

  // ---------------------------------------------------------------------------------------
  // Properties

  lemma LibertarIdsSnoc(lugares: map<int, string>, ids: seq<int>, id: int)
    ensures LibertarIds(lugares, ids + [id])
         == if id in lugares then LibertarIds(lugares, ids)[id := Livre] else LibertarIds(lugares, ids)
  {
    var a := LibertarIds(lugares, ids + [id]);
    var b := if id in lugares then LibertarIds(lugares, ids)[id := Livre] else LibertarIds(lugares, ids);
    assert a.Keys == b.Keys;
    forall k | k in a ensures a[k] == b[k] {
      assert k in ids + [id] <==> k in ids || k == id;
    }
  }

  /** There are never more occupied spaces than spaces. */
  lemma ContarOcupadosLimite(lugares: map<int, string>)
    ensures ContarOcupados(lugares) <= |lugares|
  {
    SubsetCardinality((set id | id in lugares && lugares[id] == Ocupado), lugares.Keys);
  }

  /** Setting one registered space moves the occupied count by what that space was and becomes. */
  lemma ContarOcupadosAtualizar(lugares: map<int, string>, id: int, estado: string)
    requires id in lugares
    ensures ContarOcupados(lugares[id := estado])
         == ContarOcupados(lugares) - (if lugares[id] == Ocupado then 1 else 0) + (if estado == Ocupado then 1 else 0)
  {
    var novos := lugares[id := estado];
    var antes := set k | k in lugares && lugares[k] == Ocupado;
    var depois := set k | k in novos && novos[k] == Ocupado;
    var resto := antes - {id};
    assert depois == if estado == Ocupado then resto + {id} else resto;
    assert antes == if lugares[id] == Ocupado then resto + {id} else resto;
  }

  /** A new free space leaves the occupied count as it was. */
  lemma ContarOcupadosNovo(lugares: map<int, string>, id: int)
    requires id !in lugares
    ensures ContarOcupados(lugares[id := Livre]) == ContarOcupados(lugares)
  {
    var novos := lugares[id := Livre];
    assert (set k | k in novos && novos[k] == Ocupado) == (set k | k in lugares && lugares[k] == Ocupado);
  }

  /** `info()` never shows a negative or an over-full free count. */
  lemma LivresLimite(p: EstadoParque)
    requires Inv(p)
    ensures 0 <= Livres(p) <= p.capacidade
  {
    ContarOcupadosLimite(p.lugares);
  }

  /**
   * Ids are handed out one by one from 1 and never taken back, so every id is at most the
   * capacity: an id above it names no space.
   */
  lemma IdsAteCapacidade(p: EstadoParque)
    requires Inv(p)
    ensures forall id :: id in p.lugares ==> 1 <= id <= p.capacidade
    ensures forall id :: id > p.capacidade ==> id !in p.lugares
  {
  }

  /**
   * `registar_lugar` fails exactly when the lot is full and then changes nothing; otherwise it
   * returns an id no space and no name has, adds it free, and keeps the invariant.
   */
  lemma RegistarPreserva(p: EstadoParque)
    requires Inv(p)
    ensures var (r, p1) := Registar(p);
      && (r.Err? <==> |p.lugares| >= p.capacidade)
      && (r.Err? ==> p1 == p)
      && (r.Ok? ==>
            && r.value !in p.lugares
            && (forall n :: n in p.mapaNomes ==> p.mapaNomes[n] != r.value)
            && p1.lugares == p.lugares[r.value := Livre]
            && |p1.lugares| == |p.lugares| + 1
            && ContarOcupados(p1.lugares) == ContarOcupados(p.lugares))
      && Inv(p1)
  {
    if |p.lugares| < p.capacidade {
      ContarOcupadosNovo(p.lugares, p.idAtual);
    }
  }

  /**
   * `atualizar_estado` checks the id before the state, changes nothing on failure, and on
   * success sets that one space and keeps the invariant.
   */
  lemma AtualizarPreserva(p: EstadoParque, lugarId: int, estado: string)
    requires Inv(p)
    ensures var (f, p1) := Atualizar(p, lugarId, estado);
      && (lugarId !in p.lugares ==> f == Some(KeyError("ID inválido")))
      && (lugarId in p.lugares && estado != Livre && estado != Ocupado ==> f == Some(ValueError("Estado inválido")))
      && (f.None? <==> lugarId in p.lugares && (estado == Livre || estado == Ocupado))
      && (f.Some? ==> p1 == p)
      && (f.None? ==> p1.lugares == p.lugares[lugarId := estado] && p1.lugares.Keys == p.lugares.Keys)
      && Inv(p1)
  {
  }

  lemma LigarPreserva(p: EstadoParque, addr: Addr)
    requires Inv(p)
    ensures Inv(Ligar(p, addr)) && addr in Ligar(p, addr).clientes
    ensures Ligar(p, addr).lugares == p.lugares && Ligar(p, addr).mapaNomes == p.mapaNomes
  {
  }

  /**
   * `INIT` with a known name: the same id again, its space set free, the connection owning it
   * once, and no new space, id or name.
   */
  lemma InitReconexao(p: EstadoParque, addr: Addr, nome: string)
    requires Inv(p) && nome != "" && nome in p.mapaNomes
    ensures var (resposta, p1) := ResponderInit(p, addr, nome);
      var lugarId := p.mapaNomes[nome];
      && resposta == RespostaOk("id", IntToString(lugarId))
      && p1.lugares == p.lugares[lugarId := Livre]
      && p1.lugares.Keys == p.lugares.Keys
      && p1.mapaNomes == p.mapaNomes && p1.idAtual == p.idAtual
      && p1.clientes[addr] == (if lugarId in Dono(p.clientes, addr) then Dono(p.clientes, addr)
                               else Dono(p.clientes, addr) + [lugarId])
      && Inv(p1)
  {
  }

  /**
   * `INIT` with a new name: the error when the lot is full, with nothing changed; otherwise
   * the next id, its space free, the name bound to it and the connection owning it.
   */
  lemma InitNovo(p: EstadoParque, addr: Addr, nome: string)
    requires Inv(p) && nome != "" && nome !in p.mapaNomes
    ensures var (resposta, p1) := ResponderInit(p, addr, nome);
      && (|p.lugares| >= p.capacidade ==>
            resposta == RespostaErro("Capacidade máxima atingida") && p1 == p)
      && (|p.lugares| < p.capacidade ==>
            && resposta == RespostaOk("id", IntToString(p.idAtual))
            && p1.lugares == p.lugares[p.idAtual := Livre]
            && p1.mapaNomes == p.mapaNomes[nome := p.idAtual]
            && p1.clientes[addr] == Dono(p.clientes, addr) + [p.idAtual]
            && p1.idAtual == p.idAtual + 1)
      && Inv(p1)
  {
    if |p.lugares| < p.capacidade {
      RegistarPreserva(p);
      var p1 := ResponderInit(p, addr, nome).1;
      assert forall n :: n in p1.mapaNomes ==> p1.mapaNomes[n] in p1.lugares;
    }
  }

  /**
   * `UPDATE` with an id `int()` reads: an unknown id, then a bad state, are refused with
   * nothing changed; otherwise the space takes the upper-cased state and the reply gives the
   * new occupied count.
   */
  lemma UpdateIdResultados(p: EstadoParque, lugarId: int, estado: string)
    requires Inv(p)
    ensures var (resposta, p1) := ResponderUpdateId(p, lugarId, estado);
      && (lugarId !in p.lugares ==> resposta == RespostaErro("'ID inválido'") && p1 == p)
      && (lugarId in p.lugares && Upper(estado) != Livre && Upper(estado) != Ocupado ==>
            resposta == RespostaErro("Estado inválido") && p1 == p)
      && (lugarId in p.lugares && (Upper(estado) == Livre || Upper(estado) == Ocupado) ==>
            && p1.lugares == p.lugares[lugarId := Upper(estado)]
            && resposta == RespostaOk("msg", Atualizado(ContarOcupados(p1.lugares), p.capacidade)))
      && Inv(p1)
  {
    AtualizarPreserva(p, lugarId, Upper(estado));
    assert KeyError("ID inválido").Texto() == "'ID inválido'";
  }

  /** `UPDATE` with an id `int()` cannot read is refused with `int()`'s message and changes nothing. */
  lemma UpdateIdIlegivel(p: EstadoParque, idTexto: string, estado: string)
    requires ParseInt(idTexto).None?
    ensures ResponderUpdate(p, idTexto, estado) == (RespostaErro(ErroInt(idTexto)), p)
  {
  }

  /** Requests other than `INIT` and a complete `UPDATE` change nothing. */
  lemma AtenderSemEfeito(p: EstadoParque, addr: Addr, pedido: Pedido)
    requires !pedido.Init? && !pedido.Update?
    ensures Atender(p, addr, pedido).1 == p
  {
  }

  /**
   * Whatever a request asks, the server keeps its invariant, the capacity and description,
   * every registered space and every name with the id it had, and never reuses an id.
   */
  lemma AtenderPreserva(p: EstadoParque, addr: Addr, pedido: Pedido)
    requires Inv(p)
    ensures var p1 := Atender(p, addr, pedido).1;
      && Inv(p1)
      && p1.capacidade == p.capacidade && p1.descricao == p.descricao
      && p.lugares.Keys <= p1.lugares.Keys
      && (forall n :: n in p.mapaNomes ==> n in p1.mapaNomes && p1.mapaNomes[n] == p.mapaNomes[n])
      && p1.idAtual >= p.idAtual
  {
    match pedido
    case Init(nome) =>
      if nome != "" && nome in p.mapaNomes {
        InitReconexao(p, addr, nome);
      } else if nome != "" {
        InitNovo(p, addr, nome);
      }
    case Update(idTexto, estado) =>
      if ParseInt(idTexto).Some? {
        UpdateIdResultados(p, ParseInt(idTexto).value, estado);
      }
    case _ =>
  }

  lemma {:induction false} ConversaPreserva(p: EstadoParque, addr: Addr, mensagens: seq<string>)
    requires Inv(p)
    ensures var p1 := Conversa(p, addr, mensagens).1;
      && Inv(p1)
      && p1.capacidade == p.capacidade && p1.descricao == p.descricao
      && p.lugares.Keys <= p1.lugares.Keys
      && (forall n :: n in p.mapaNomes ==> n in p1.mapaNomes && p1.mapaNomes[n] == p.mapaNomes[n])
    decreases |mensagens|
  {
    if mensagens != [] {
      var init := mensagens[..|mensagens| - 1];
      ConversaPreserva(p, addr, init);
      var antes := Conversa(p, addr, init).1;
      AtenderPreserva(antes, addr, Classificar(mensagens[|mensagens| - 1]));
    }
  }

  /**
   * When a connection ends, each space it owns is free and every other space keeps its state;
   * names, owners and ids are kept, and the occupied count does not grow.
   */
  lemma LibertarPreserva(p: EstadoParque, addr: Addr)
    requires Inv(p)
    ensures var p1 := Libertar(p, addr);
      && Inv(p1)
      && p1.lugares.Keys == p.lugares.Keys
      && (forall id :: id in p.lugares && id in Dono(p.clientes, addr) ==> p1.lugares[id] == Livre)
      && (forall id :: id in p.lugares && id !in Dono(p.clientes, addr) ==> p1.lugares[id] == p.lugares[id])
      && p1.mapaNomes == p.mapaNomes && p1.clientes == p.clientes && p1.idAtual == p.idAtual
      && ContarOcupados(p1.lugares) <= ContarOcupados(p.lugares)
  {
    var p1 := Libertar(p, addr);
    assert |p1.lugares| == |p.lugares| by {
      assert p1.lugares.Keys == p.lugares.Keys;
    }
    SubsetCardinality((set id | id in p1.lugares && p1.lugares[id] == Ocupado),
                      (set id | id in p.lugares && p.lugares[id] == Ocupado));
  }

  /** A whole connection keeps the invariant and every name with its id. */
  lemma SessaoPreserva(p: EstadoParque, addr: Addr, mensagens: seq<string>)
    requires Inv(p)
    ensures var p1 := Sessao(p, addr, mensagens).1;
      && Inv(p1)
      && (forall n :: n in p.mapaNomes ==> n in p1.mapaNomes && p1.mapaNomes[n] == p.mapaNomes[n])
  {
    LigarPreserva(p, addr);
    ConversaPreserva(Ligar(p, addr), addr, mensagens);
    LibertarPreserva(Conversa(Ligar(p, addr), addr, mensagens).1, addr);
  }

  /**
   * IDs persist across connections: after a connection ends, an `INIT` with a name it had
   * registered, from any address, gets the same id back and takes no new space.
   */
  lemma ReligarMesmoId(p: EstadoParque, addr: Addr, outro: Addr, nome: string)
    requires Inv(p) && nome != "" && nome in p.mapaNomes
    ensures var p1 := Libertar(p, addr);
      var (resposta, p2) := ResponderInit(p1, outro, nome);
      && resposta == RespostaOk("id", IntToString(p.mapaNomes[nome]))
      && p2.lugares.Keys == p.lugares.Keys
      && p2.idAtual == p.idAtual
  {
    LibertarPreserva(p, addr);
    InitReconexao(Libertar(p, addr), outro, nome);
  }

  // ---------------------------------------------------------------------------------------
  // The texts on the wire

  lemma RespostaTexto(chave: string, valor: string, texto: string)
    ensures RespostaOk(chave, valor) == "OK;;" + chave + "=" + valor
    ensures RespostaErro(texto) == "ERRO;;msg=" + texto
  {
    CodificarParams("OK", [], chave, valor);
    assert [] + [(chave, valor)] == [(chave, valor)];
    CodificarParams("ERRO", [], "msg", texto);
    assert [] + [("msg", texto)] == [("msg", texto)];
  }

  lemma MensagemTexto(nome: string, idTexto: string, estado: string)
    ensures Codificar("INIT", [("nome", nome)]) == "INIT;;nome=" + nome
    ensures Codificar("UPDATE", [("id", idTexto), ("estado", estado)]) == "UPDATE;;id=" + idTexto + ";;estado=" + estado
  {
    CodificarParams("INIT", [], "nome", nome);
    assert [] + [("nome", nome)] == [("nome", nome)];
    CodificarParams("UPDATE", [], "id", idTexto);
    assert [] + [("id", idTexto)] == [("id", idTexto)];
    CodificarParams("UPDATE", [("id", idTexto)], "estado", estado);
    assert [("id", idTexto)] + [("estado", estado)] == [("id", idTexto), ("estado", estado)];
  }

  lemma SeguroSimples(v: string)
    requires v != [] && !IsSpace(v[0]) && !IsSpace(v[|v| - 1]) && ';' !in v
    ensures Seguro(v)
  {
    StripKeeps(v);
  }

  /** What `handle_client` reads from a text that `strip` keeps and that decodes to `dados`. */
  lemma ClassificarDados(mensagem: string, dados: Dados)
    requires Strip(mensagem) == mensagem && Descodificado(mensagem) == Ok(dados)
    ensures "comando" in dados && Classificar(mensagem) == PedidoDe(dados)
  {
  }

  /** `codificar("INIT", nome=n)` reads back as `INIT` with name `n`. */
  lemma ClassificarInit(nome: string)
    requires nome != [] && Seguro(nome)
    ensures Classificar(Codificar("INIT", [("nome", nome)])) == Init(nome)
  {
    var m := Codificar("INIT", [("nome", nome)]);
    MensagemInitStrip(nome);
    DescodificadoInit(nome);
    ClassificarDados(m, Descodificado(m).value);
  }

  lemma MensagemInitStrip(nome: string)
    requires nome != [] && Seguro(nome)
    ensures var m := Codificar("INIT", [("nome", nome)]); Strip(m) == m
  {
    var m := Codificar("INIT", [("nome", nome)]);
    MensagemTexto(nome, "", "");
    StripKeeps(nome);
    assert m[0] == 'I' && m[|m| - 1] == nome[|nome| - 1];
    StripKeeps(m);
  }

  lemma DescodificadoInit(nome: string)
    requires Seguro(nome)
    ensures var r := Descodificado(Codificar("INIT", [("nome", nome)]));
      r.Ok? && r.value["comando"] == "INIT" && "nome" in r.value && r.value["nome"] == nome
  {
    var ps := [("nome", nome)];
    SeguroSimples("INIT");
    SeguroSimples("nome");
    UpperKeeps("INIT");
    RoundTripSeguro("INIT", ps);
    assert ps[0].0 == "nome" && ps[0].1 == nome;
    assert "nome" in (set i | 0 <= i < |ps| :: ps[i].0);
  }

  /** `codificar("UPDATE", id=i, estado=e)` reads back as `UPDATE` with those two parameters. */
  lemma ClassificarUpdate(idTexto: string, estado: string)
    requires Seguro(idTexto) && Seguro(estado)
    ensures Classificar(Codificar("UPDATE", [("id", idTexto), ("estado", estado)])) == Update(idTexto, estado)
  {
    var m := Codificar("UPDATE", [("id", idTexto), ("estado", estado)]);
    MensagemUpdateStrip(idTexto, estado);
    DescodificadoUpdate(idTexto, estado);
    ClassificarDados(m, Descodificado(m).value);
  }

  lemma DescodificadoUpdate(idTexto: string, estado: string)
    requires Seguro(idTexto) && Seguro(estado)
    ensures var r := Descodificado(Codificar("UPDATE", [("id", idTexto), ("estado", estado)]));
      && r.Ok? && r.value["comando"] == "UPDATE"
      && "id" in r.value && r.value["id"] == idTexto
      && "estado" in r.value && r.value["estado"] == estado
  {
    var ps := [("id", idTexto), ("estado", estado)];
    SeguroSimples("UPDATE");
    UpperKeeps("UPDATE");
    ParametrosUpdateSeguros(idTexto, estado);
    RoundTripSeguro("UPDATE", ps);
    assert ps[0].0 == "id" && ps[0].1 == idTexto && ps[1].0 == "estado" && ps[1].1 == estado;
    assert "id" in (set i | 0 <= i < |ps| :: ps[i].0);
    assert "estado" in (set i | 0 <= i < |ps| :: ps[i].0);
  }

  lemma ParametrosUpdateSeguros(idTexto: string, estado: string)
    requires Seguro(idTexto) && Seguro(estado)
    ensures var ps := [("id", idTexto), ("estado", estado)];
      && (forall i :: 0 <= i < |ps| ==> '=' !in ps[i].0 && Seguro(ps[i].0) && Seguro(ps[i].1))
      && KwargsValidos(ps)
  {
    SeguroSimples("id");
    SeguroSimples("estado");
  }

  lemma MensagemUpdateStrip(idTexto: string, estado: string)
    requires Seguro(estado)
    ensures var m := Codificar("UPDATE", [("id", idTexto), ("estado", estado)]); Strip(m) == m
  {
    var m := Codificar("UPDATE", [("id", idTexto), ("estado", estado)]);
    MensagemTexto("", idTexto, estado);
    StripKeeps(estado);
    assert m[0] == 'U' && m[|m| - 1] == if estado == [] then '=' else estado[|estado| - 1];
    StripKeeps(m);
  }

  /** `codificar("INFO")` reads back as `INFO`. */
  lemma ClassificarInfo()
    ensures Classificar("INFO") == Info
  {
    var c := "INFO";
    assert forall i :: 0 <= i < |c| ==> 'A' <= c[i] <= 'Z';
    PalavraSimples(c);
    ClassificarDados(c, map["comando" := c]);
  }

  /** The server answers an `INIT` a space writes as an `INIT` with that name. */
  lemma ResponderInitMensagem(p: EstadoParque, addr: Addr, nome: string)
    requires nome != [] && Seguro(nome)
    ensures Responder(p, addr, Codificar("INIT", [("nome", nome)])) == ResponderInit(p, addr, nome)
  {
    ClassificarInit(nome);
  }

  /** The server answers an `UPDATE` a space writes as an `UPDATE` with that id and state. */
  lemma ResponderUpdateMensagem(p: EstadoParque, addr: Addr, idTexto: string, estado: string)
    requires Seguro(idTexto) && Seguro(estado)
    ensures Responder(p, addr, Codificar("UPDATE", [("id", idTexto), ("estado", estado)]))
         == ResponderUpdate(p, idTexto, estado)
  {
    ClassificarUpdate(idTexto, estado);
  }

  // ---------------------------------------------------------------------------------------
  // Scenarios

  /** A lot with room for two: the first two names get ids 1 and 2 and a third name is refused. */
  lemma CenarioRegisto(descricao: string, a: Addr, b: Addr, c: Addr, nA: string, nB: string, nC: string)
    requires nA != [] && nB != [] && nC != []
    requires nA != nB && nB != nC && nA != nC
    ensures var p0 := Novo(2, descricao);
      var (r1, p1) := ResponderInit(p0, a, nA);
      var (r2, p2) := ResponderInit(p1, b, nB);
      var (r3, p3) := ResponderInit(p2, c, nC);
      && r1 == RespostaOk("id", IntToString(1)) && r2 == RespostaOk("id", IntToString(2))
      && r3 == RespostaErro("Capacidade máxima atingida")
      && p3 == p2 && p2.lugares == map[1 := Livre, 2 := Livre]
  {
    var p0 := Novo(2, descricao);
    InitNovo(p0, a, nA);
    var p1 := ResponderInit(p0, a, nA).1;
    InitNovo(p1, b, nB);
    var p2 := ResponderInit(p1, b, nB).1;
    assert p2.lugares == map[1 := Livre, 2 := Livre];
    InitNovo(p2, c, nC);
  }

  lemma TextosRegisto()
    ensures RespostaOk("id", IntToString(1)) == "OK;;id=1"
    ensures RespostaOk("id", IntToString(2)) == "OK;;id=2"
  {
    assert IntToString(1) == "1" && IntToString(2) == "2";
    RespostaTexto("id", "1", "");
    RespostaTexto("id", "2", "");
  }

  lemma TextoCapacidade()
    ensures RespostaErro("Capacidade máxima atingida") == "ERRO;;msg=Capacidade máxima atingida"
  {
    RespostaTexto("", "", "Capacidade máxima atingida");
  }

  lemma TextoAtualizado()
    ensures RespostaOk("msg", Atualizado(1, 2))
         == "OK;;msg=estado atualizado (1/2)"
  {
    var um := IntToString(1);
    var dois := IntToString(2);
    assert um == "1" && dois == "2";
    var t := Atualizado(1, 2);
    assert t == "estado atualizado (" + um + "/" + dois + ")";
    assert t == "estado atualizado (1/2)";
    RespostaTexto("msg", t, "");
    assert RespostaOk("msg", t) == "OK;;msg=" + t;
  }

  lemma TextoIdInvalido()
    ensures RespostaErro(KeyError("ID inválido").Texto()) == "ERRO;;msg='ID inválido'"
  {
    RespostaTexto("", "", KeyError("ID inválido").Texto());
  }

  /**
   * The same on the wire: spaces that send `INIT;;nome=A`, `INIT;;nome=B` and `INIT;;nome=C`
   * in turn to a lot with room for two are answered `OK;;id=1`, `OK;;id=2` and
   * `ERRO;;msg=Capacidade máxima atingida`.
   */
  lemma CenarioCapacidadeDois(descricao: string, a: Addr, b: Addr, c: Addr, nA: string, nB: string, nC: string)
    requires nA != [] && nB != [] && nC != [] && Seguro(nA) && Seguro(nB) && Seguro(nC)
    requires nA != nB && nB != nC && nA != nC
    ensures var p0 := Novo(2, descricao);
      var (r1, p1) := Responder(p0, a, Codificar("INIT", [("nome", nA)]));
      var (r2, p2) := Responder(p1, b, Codificar("INIT", [("nome", nB)]));
      var (r3, p3) := Responder(p2, c, Codificar("INIT", [("nome", nC)]));
      && r1 == "OK;;id=1" && r2 == "OK;;id=2"
      && r3 == "ERRO;;msg=Capacidade máxima atingida"
      && p3 == p2 && p2.lugares == map[1 := Livre, 2 := Livre]
  {
    var p0 := Novo(2, descricao);
    CenarioRegisto(descricao, a, b, c, nA, nB, nC);
    TextosRegisto();
    TextoCapacidade();
    ResponderInitMensagem(p0, a, nA);
    var p1 := ResponderInit(p0, a, nA).1;
    ResponderInitMensagem(p1, b, nB);
    var p2 := ResponderInit(p1, b, nB).1;
    ResponderInitMensagem(p2, c, nC);
  }

  /**
   * Then, on the wire: `UPDATE` of space 1 to `OCUPADO` is answered
   * `OK;;msg=estado atualizado (1/2)` and `UPDATE` of the unknown id 99 is answered
   * `ERRO;;msg='ID inválido'` with nothing changed.
   */
  lemma CenarioAtualizacao(p: EstadoParque, a: Addr)
    requires Inv(p) && p.capacidade == 2 && p.lugares == map[1 := Livre, 2 := Livre]
    ensures var (r4, p4) := Responder(p, a, Codificar("UPDATE", [("id", IntToString(1)), ("estado", Ocupado)]));
      var (r5, p5) := Responder(p4, a, Codificar("UPDATE", [("id", IntToString(99)), ("estado", Livre)]));
      && r4 == "OK;;msg=estado atualizado (1/2)"
      && r5 == "ERRO;;msg='ID inválido'"
      && p5.lugares == map[1 := Ocupado, 2 := Livre]
  {
    var p4 := CenarioOcupar(p, a);
    CenarioDesconhecido(p4, a);
    TextoAtualizado();
    TextoIdInvalido();
  }

  lemma CenarioOcupar(p: EstadoParque, a: Addr) returns (p4: EstadoParque)
    requires Inv(p) && p.capacidade == 2 && p.lugares == map[1 := Livre, 2 := Livre]
    ensures Responder(p, a, Codificar("UPDATE", [("id", IntToString(1)), ("estado", Ocupado)]))
         == (RespostaOk("msg", Atualizado(1, 2)), p4)
    ensures Inv(p4) && p4.lugares == map[1 := Ocupado, 2 := Livre]
  {
    SeguroSimples(Ocupado);
    ResponderUpdateIdMensagem(p, a, 1, Ocupado);
    p4 := OcuparUm(p);
  }

  lemma OcuparUm(p: EstadoParque) returns (p4: EstadoParque)
    requires Inv(p) && p.capacidade == 2 && p.lugares == map[1 := Livre, 2 := Livre]
    ensures ResponderUpdateId(p, 1, Ocupado)
         == (RespostaOk("msg", Atualizado(1, 2)), p4)
    ensures Inv(p4) && p4.lugares == map[1 := Ocupado, 2 := Livre]
  {
    UpperKeeps(Ocupado);
    UpdateIdResultados(p, 1, Ocupado);
    p4 := ResponderUpdateId(p, 1, Ocupado).1;
    assert p4.lugares == p.lugares[1 := Ocupado];
    assert p.lugares[1 := Ocupado] == map[1 := Ocupado, 2 := Livre];
    ContarUmOcupado();
  }

  lemma ContarUmOcupado()
    ensures ContarOcupados(map[1 := Ocupado, 2 := Livre]) == 1
  {
    var m := map[1 := Ocupado, 2 := Livre];
    assert (set id | id in m && m[id] == Ocupado) == {1};
  }

  lemma CenarioDesconhecido(p: EstadoParque, a: Addr)
    requires Inv(p) && 99 !in p.lugares
    ensures Responder(p, a, Codificar("UPDATE", [("id", IntToString(99)), ("estado", Livre)]))
         == (RespostaErro(KeyError("ID inválido").Texto()), p)
  {
    SeguroSimples(Livre);
    ResponderUpdateIdMensagem(p, a, 99, Livre);
    UpperKeeps(Livre);
    UpdateIdResultados(p, 99, Livre);
  }

  /** An `UPDATE` that carries `str(id)` is answered as an update of that id. */
  lemma ResponderUpdateIdMensagem(p: EstadoParque, addr: Addr, lugarId: int, estado: string)
    requires Seguro(estado)
    ensures Responder(p, addr, Codificar("UPDATE", [("id", IntToString(lugarId)), ("estado", estado)]))
         == ResponderUpdateId(p, lugarId, estado)
  {
    IntToStringSeguro(lugarId);
    ResponderUpdateMensagem(p, addr, IntToString(lugarId), estado);
    ParseIntToString(lugarId);
  }

  /** The decimal text of an id is safe to send as a parameter value. */
  lemma IntToStringSeguro(i: int)
    ensures Seguro(IntToString(i))
  {
    var s := IntToString(i);
    var d := NatToString(if i < 0 then -i else i);
    assert forall k :: 0 <= k < |d| ==> IsDigit(d[k]);
    assert forall k :: 0 <= k < |s| ==> s[k] == '-' || IsDigit(s[k]);
    StripKeeps(s);
  }
}
