/**
 * The text protocol spoken between the space simulators and the lot server: a command,
 * then `key=value` parameters, all joined by the delimiter `;;`.
 */
module Codec {
  import opened Results
  import opened Text

  const Delimitador: string := ";;"

  /** The protocol exceptions; each carries the text `str(e)` shows. */
  datatype ProtocoloErro =
    | FormatoInvalido(msg: string)
    | ComandoInvalido(msg: string)
    | ParametrosInvalidos(msg: string)

  /** Keyword arguments of `codificar`, in insertion order. */
  type Params = seq<(string, string)>

  /** The dictionary `descodificar` returns. */
  type Dados = map<string, string>

  function Segmento(chave: string, valor: string): string {
    chave + "=" + valor
  }

  function Segmentos(ps: Params): seq<string> {
    seq(|ps|, i requires 0 <= i < |ps| => Segmento(ps[i].0, ps[i].1))
  }

  /** `codificar(comando, **kwargs)`: the command and one `key=value` per argument, joined by `;;`. */
  function Codificar(comando: string, ps: Params): string {
    Join([comando] + Segmentos(ps), Delimitador)
  }

  /** With no parameters the message is the bare command; each parameter appends `;;key=value`. */
  lemma CodificarParams(comando: string, ps: Params, chave: string, valor: string)
    ensures Codificar(comando, []) == comando
    ensures Codificar(comando, ps + [(chave, valor)])
         == Codificar(comando, ps) + Delimitador + chave + "=" + valor
  {
    assert Segmentos(ps + [(chave, valor)]) == Segmentos(ps) + [Segmento(chave, valor)];
    assert [comando] + Segmentos(ps + [(chave, valor)]) == ([comando] + Segmentos(ps)) + [Segmento(chave, valor)];
    JoinSnoc([comando] + Segmentos(ps), Delimitador, Segmento(chave, valor));
  }

  /** The example of the documentation of `codificar`. */
  lemma CodificarExemplo()
    ensures Codificar("UPDATE", [("id", "3"), ("estado", "OCUPADO")]) == "UPDATE;;id=3;;estado=OCUPADO"
  {
    CodificarParams("UPDATE", [], "id", "3");
    assert Codificar("UPDATE", [("id", "3")]) == "UPDATE;;id=3" by {
      assert [] + [("id", "3")] == [("id", "3")];
    }
    CodificarParams("UPDATE", [("id", "3")], "estado", "OCUPADO");
    assert [("id", "3")] + [("estado", "OCUPADO")] == [("id", "3"), ("estado", "OCUPADO")];
  }

  /** A segment holds an `=`. */
  predicate TemIgual(p: string) {
    IndexOf(p, '=') < |p|
  }

  /** A segment after the command that holds text but no `=`: `descodificar` rejects it. */
  predicate MalFormado(p: string) {
    !TemIgual(p) && Strip(p) != []
  }

  /** The entry a segment with `=` adds: split at the first `=` only, key and value stripped. */
  function Par(p: string): (string, string)
    requires TemIgual(p)
  {
    var k := IndexOf(p, '=');
    (Strip(p[..k]), Strip(p[k + 1..]))
  }

  /** The entries of the segments that hold an `=`, in order. */
  function Pares(segs: seq<string>): seq<(string, string)>
    decreases |segs|
  {
    if segs == [] then []
    else Pares(segs[..|segs| - 1]) + (if TemIgual(segs[|segs| - 1]) then [Par(segs[|segs| - 1])] else [])
  }

  /** The parameters the segments give, each later key overwriting an earlier one. */
  function Parametros(segs: seq<string>): Dados {
    MapOf(Pares(segs))
  }

  /** The first malformed segment, if any. */
  function PrimeiroMalFormado(segs: seq<string>): Option<string> {
    if segs == [] then None
    else if MalFormado(segs[0]) then Some(segs[0])
    else PrimeiroMalFormado(segs[1..])
  }

  /**
   * What `descodificar(mensagem)` returns or raises: `ComandoInvalido` for a blank command,
   * `FormatoInvalido` for the first malformed segment, and otherwise the upper-cased command
   * under `comando` followed by the parameters (so a parameter named `comando` overrides it).
   */
  function Descodificado(mensagem: string): (r: Result<Dados, ProtocoloErro>)
    ensures r.Ok? ==> "comando" in r.value
  {
    var partes := Split(mensagem, Delimitador);
    var comando := Upper(Strip(partes[0]));
    if comando == [] then Err(ComandoInvalido("Comando vazio"))
    else match PrimeiroMalFormado(partes[1..])
      case Some(p) => Err(FormatoInvalido("Parâmetro mal formatado: " + p))
      case None => Ok(map["comando" := comando] + Parametros(partes[1..]))
  }

  lemma {:induction false} PrimeiroMalFormadoConcat(xs: seq<string>, ys: seq<string>)
    ensures PrimeiroMalFormado(xs + ys)
         == if PrimeiroMalFormado(xs).Some? then PrimeiroMalFormado(xs) else PrimeiroMalFormado(ys)
  {
    if xs != [] {
      assert (xs + ys)[1..] == xs[1..] + ys;
      PrimeiroMalFormadoConcat(xs[1..], ys);
    } else {
      assert xs + ys == ys;
    }
  }

  lemma {:induction false} ParametrosSnoc(xs: seq<string>, p: string)
    ensures Parametros(xs + [p])
         == if TemIgual(p) then Parametros(xs)[Par(p).0 := Par(p).1] else Parametros(xs)
  {
    assert (xs + [p])[..|xs|] == xs;
    assert Pares(xs + [p]) == Pares(xs) + (if TemIgual(p) then [Par(p)] else []);
    if TemIgual(p) {
      MapOfSnoc(Pares(xs), Par(p).0, Par(p).1);
    } else {
      assert Pares(xs + [p]) == Pares(xs);
    }
  }

  /** One step of the loop of `descodificar` over a segment that is not malformed. */
  lemma PassoBemFormado(partes: seq<string>, i: nat, dados: Dados)
    requires 1 <= i < |partes| && !MalFormado(partes[i])
    requires dados == Parametros(partes[1..i]) && PrimeiroMalFormado(partes[1..i]) == None
    ensures PrimeiroMalFormado(partes[1..i + 1]) == None
    ensures (if TemIgual(partes[i]) then dados[Par(partes[i]).0 := Par(partes[i]).1] else dados)
         == Parametros(partes[1..i + 1])
  {
    assert partes[1..i + 1] == partes[1..i] + [partes[i]];
    PrimeiroMalFormadoConcat(partes[1..i], [partes[i]]);
    ParametrosSnoc(partes[1..i], partes[i]);
  }

  /** The loop of `descodificar` stops at the first malformed segment. */
  lemma PassoMalFormado(partes: seq<string>, i: nat)
    requires 1 <= i < |partes| && MalFormado(partes[i]) && PrimeiroMalFormado(partes[1..i]) == None
    ensures PrimeiroMalFormado(partes[1..]) == Some(partes[i])
  {
    assert partes[1..] == partes[1..i] + partes[i..];
    PrimeiroMalFormadoConcat(partes[1..i], partes[i..]);
  }

  /** `descodificar`: the loop over the segments fills the dictionary or raises. */
  method Descodificar(mensagem: string) returns (r: Result<Dados, ProtocoloErro>)
    ensures r == Descodificado(mensagem)
  {
    var partes := Split(mensagem, Delimitador);
    var comando := Upper(Strip(partes[0]));
    if comando == [] {
      return Err(ComandoInvalido("Comando vazio"));
    }
    var dados: Dados := map[];
    var i := 1;
    while i < |partes|
      invariant 1 <= i <= |partes|
      invariant dados == Parametros(partes[1..i])
      invariant PrimeiroMalFormado(partes[1..i]) == None
    {
      var p := partes[i];
      var k := IndexOf(p, '=');
      if k < |p| {
        PassoBemFormado(partes, i, dados);
        dados := dados[Strip(p[..k]) := Strip(p[k + 1..])];
      } else if Strip(p) != [] {
        PassoMalFormado(partes, i);
        return Err(FormatoInvalido("Parâmetro mal formatado: " + p));
      } else {
        PassoBemFormado(partes, i, dados);
      }
      i := i + 1;
    }
    assert partes[1..i] == partes[1..];
    return Ok(map["comando" := comando] + dados);
  }

  // ---------------------------------------------------------------------------------------
  // Properties of `descodificar`

  /** `ComandoInvalido("Comando vazio")` is raised exactly when the first segment is blank. */
  lemma DescodificadoComandoVazio(mensagem: string)
    ensures Descodificado(mensagem) == Err(ComandoInvalido("Comando vazio"))
        <==> Strip(Split(mensagem, Delimitador)[0]) == []
  {
    UpperLength(Strip(Split(mensagem, Delimitador)[0]));
  }

  lemma {:induction false} PrimeiroMalFormadoIndice(segs: seq<string>)
    ensures PrimeiroMalFormado(segs) == None <==> forall i :: 0 <= i < |segs| ==> !MalFormado(segs[i])
    ensures PrimeiroMalFormado(segs).Some? ==>
      exists j :: 0 <= j < |segs| && MalFormado(segs[j]) && PrimeiroMalFormado(segs).value == segs[j]
        && forall i :: 0 <= i < j ==> !MalFormado(segs[i])
  {
    if segs != [] && !MalFormado(segs[0]) {
      PrimeiroMalFormadoIndice(segs[1..]);
      if PrimeiroMalFormado(segs[1..]).Some? {
        var j :| 0 <= j < |segs[1..]| && MalFormado(segs[1..][j])
          && PrimeiroMalFormado(segs[1..]).value == segs[1..][j]
          && forall i :: 0 <= i < j ==> !MalFormado(segs[1..][i]);
        assert segs[j + 1] == segs[1..][j];
        assert forall i :: 1 <= i < j + 1 ==> segs[i] == segs[1..][i - 1];
      }
      assert forall i :: 1 <= i < |segs| ==> segs[i] == segs[1..][i - 1];
    }
  }

  /** Segment `j` (after the command) is malformed and no segment between the command and it is. */
  predicate PrimeiroMalFormadoEm(partes: seq<string>, j: int) {
    1 <= j < |partes| && MalFormado(partes[j]) && forall i :: 1 <= i < j ==> !MalFormado(partes[i])
  }

  /**
   * `FormatoInvalido` is raised exactly when the command is not blank and some later segment
   * holds text but no `=`; the message names the first such segment.
   */
  lemma DescodificadoFormatoInvalido(mensagem: string)
    ensures var partes := Split(mensagem, Delimitador);
      (Descodificado(mensagem).Err? && Descodificado(mensagem).error.FormatoInvalido?)
      <==> (Strip(partes[0]) != [] && exists i :: 1 <= i < |partes| && MalFormado(partes[i]))
    ensures Descodificado(mensagem).Err? && Descodificado(mensagem).error.FormatoInvalido? ==>
      exists j :: PrimeiroMalFormadoEm(Split(mensagem, Delimitador), j)
        && Descodificado(mensagem).error.msg == "Parâmetro mal formatado: " + Split(mensagem, Delimitador)[j]
  {
    FormatoInvalidoQuando(mensagem);
    FormatoInvalidoPrimeiro(mensagem);
  }

  lemma FormatoInvalidoQuando(mensagem: string)
    ensures var partes := Split(mensagem, Delimitador);
      (Descodificado(mensagem).Err? && Descodificado(mensagem).error.FormatoInvalido?)
      <==> (Strip(partes[0]) != [] && exists i :: 1 <= i < |partes| && MalFormado(partes[i]))
  {
    var partes := Split(mensagem, Delimitador);
    UpperLength(Strip(partes[0]));
    PrimeiroMalFormadoIndice(partes[1..]);
    assert forall i :: 1 <= i < |partes| ==> partes[i] == partes[1..][i - 1];
    if exists i :: 1 <= i < |partes| && MalFormado(partes[i]) {
      var i :| 1 <= i < |partes| && MalFormado(partes[i]);
      assert MalFormado(partes[1..][i - 1]);
    }
  }

  lemma FormatoInvalidoPrimeiro(mensagem: string)
    ensures Descodificado(mensagem).Err? && Descodificado(mensagem).error.FormatoInvalido? ==>
      exists j :: PrimeiroMalFormadoEm(Split(mensagem, Delimitador), j)
        && Descodificado(mensagem).error.msg == "Parâmetro mal formatado: " + Split(mensagem, Delimitador)[j]
  {
    var partes := Split(mensagem, Delimitador);
    var d := Descodificado(mensagem);
    if d.Err? && d.error.FormatoInvalido? {
      PrimeiroMalFormadoCauda(partes, "Parâmetro mal formatado: ", d.error.msg);
    }
  }

  /** The first malformed segment after the command, as an index into all the segments. */
  lemma PrimeiroMalFormadoCauda(partes: seq<string>, prefixo: string, msg: string)
    requires 1 <= |partes| && PrimeiroMalFormado(partes[1..]).Some?
    requires msg == prefixo + PrimeiroMalFormado(partes[1..]).value
    ensures exists j :: PrimeiroMalFormadoEm(partes, j) && msg == prefixo + partes[j]
  {
    var cauda := partes[1..];
    PrimeiroMalFormadoIndice(cauda);
    var j :| 0 <= j < |cauda| && MalFormado(cauda[j])
      && PrimeiroMalFormado(cauda).value == cauda[j]
      && forall i :: 0 <= i < j ==> !MalFormado(cauda[i]);
    assert partes[j + 1] == cauda[j];
    forall i | 1 <= i < j + 1 ensures !MalFormado(partes[i]) {
      assert partes[i] == cauda[i - 1];
    }
    assert PrimeiroMalFormadoEm(partes, j + 1);
  }

  /**
   * The two errors above are the only ones: any command, known or not, decodes when it is not
   * blank and every later segment is blank or holds an `=`.
   */
  lemma DescodificadoOk(mensagem: string)
    ensures var partes := Split(mensagem, Delimitador);
      Descodificado(mensagem).Ok?
      <==> (Strip(partes[0]) != [] && forall i :: 1 <= i < |partes| ==> !MalFormado(partes[i]))
    ensures Descodificado(mensagem).Err? ==>
      Descodificado(mensagem).error == ComandoInvalido("Comando vazio")
      || Descodificado(mensagem).error.FormatoInvalido?
  {
    var partes := Split(mensagem, Delimitador);
    UpperLength(Strip(partes[0]));
    PrimeiroMalFormadoIndice(partes[1..]);
    assert forall i :: 1 <= i < |partes| ==> partes[i] == partes[1..][i - 1];
  }

  /**
   * The decoded command is the first segment stripped and upper-cased, unless a parameter
   * named `comando` overrides it.
   */
  lemma DescodificadoComando(mensagem: string)
    requires Descodificado(mensagem).Ok?
    ensures var partes := Split(mensagem, Delimitador);
      var d := Descodificado(mensagem).value;
      && "comando" in d
      && d["comando"] == (if "comando" in Parametros(partes[1..]) then Parametros(partes[1..])["comando"]
                          else Upper(Strip(partes[0])))
      && d.Keys == {"comando"} + Parametros(partes[1..]).Keys
  {
  }

  /** A message that is a command alone decodes to that command, stripped and upper-cased. */
  lemma DescodificadoSoComando(comando: string)
    requires NoOccurrence(comando, Delimitador) && Strip(comando) != []
    ensures Descodificado(comando) == Ok(map["comando" := Upper(Strip(comando))])
  {
    SplitWhole(comando, Delimitador);
    UpperLength(Strip(comando));
    var d := map["comando" := Upper(Strip(comando))];
    assert Split(comando, Delimitador)[1..] == [];
    assert d + Parametros([]) == d;
  }

  /** A bare word of capital letters reads back as that command and nothing else. */
  lemma PalavraSimples(c: string)
    requires c != [] && forall i :: 0 <= i < |c| ==> 'A' <= c[i] <= 'Z'
    ensures NoOccurrence(c, Delimitador) && Strip(c) == c && Upper(c) == c
    ensures Descodificado(c) == Ok(map["comando" := c])
  {
    SemDelimitador(c);
    StripKeeps(c);
    UpperKeeps(c);
    DescodificadoSoComando(c);
  }

  /** A command and then one segment that holds text but no `=`: `FormatoInvalido` naming that segment. */
  lemma DescodificadoSemIgual(comando: string, p: string)
    requires Isolated(comando, Delimitador) && NoOccurrence(p, Delimitador)
    requires Strip(comando) != [] && MalFormado(p)
    ensures Descodificado(comando + Delimitador + p) == Err(FormatoInvalido("Parâmetro mal formatado: " + p))
  {
    SplitCut(comando, Delimitador, p);
    SplitWhole(p, Delimitador);
    UpperLength(Strip(comando));
    var partes := Split(comando + Delimitador + p, Delimitador);
    assert partes[1..] == [p];
  }

  /**
   * A later segment with the same key overwrites an earlier one: the value a key ends with is the
   * one of the last segment that names it.
   */
  lemma {:induction false} ParametrosUltimo(xs: seq<string>, p: string, ys: seq<string>)
    requires TemIgual(p)
    requires forall i :: 0 <= i < |ys| && TemIgual(ys[i]) ==> Par(ys[i]).0 != Par(p).0
    ensures Par(p).0 in Parametros(xs + [p] + ys)
    ensures Parametros(xs + [p] + ys)[Par(p).0] == Par(p).1
    decreases |ys|
  {
    if ys == [] {
      assert xs + [p] + ys == xs + [p];
      ParametrosSnoc(xs, p);
    } else {
      var init := ys[..|ys| - 1];
      var q := ys[|ys| - 1];
      ParametrosUltimo(xs, p, init);
      assert xs + [p] + ys == (xs + [p] + init) + [q];
      ParametrosSnoc(xs + [p] + init, q);
    }
  }

  // ---------------------------------------------------------------------------------------
  // Round trip

  lemma StartsWithDelimitador(x: string)
    ensures StartsWith(x, Delimitador) <==> |x| >= 2 && x[0] == ';' && x[1] == ';'
  {
    if |x| >= 2 && x[0] == ';' && x[1] == ';' {
      assert x[..2] == Delimitador;
    }
  }

  /** For `;;`, "no occurrence" means no two `;` in a row. */
  lemma SemDelimitador(p: string)
    ensures NoOccurrence(p, Delimitador)
        <==> forall i :: 0 <= i < |p| - 1 ==> !(p[i] == ';' && p[i + 1] == ';')
  {
    if NoOccurrence(p, Delimitador) {
      forall i | 0 <= i < |p| - 1 ensures !(p[i] == ';' && p[i + 1] == ';') {
        StartsWithDelimitador(p[i..]);
        assert p[i..][0] == p[i] && p[i..][1] == p[i + 1];
      }
    }
    if forall i :: 0 <= i < |p| - 1 ==> !(p[i] == ';' && p[i + 1] == ';') {
      forall i | 0 <= i <= |p| ensures !StartsWith(p[i..], Delimitador) {
        StartsWithDelimitador(p[i..]);
        if i < |p| - 1 {
          assert p[i..][0] == p[i] && p[i..][1] == p[i + 1];
        }
      }
    }
  }

  /** For `;;`, a part that is cut exactly where it ends has no two `;` in a row and no `;` at its end. */
  lemma IsoladoDelimitador(p: string)
    ensures Isolated(p, Delimitador)
        <==> (forall i :: 0 <= i < |p| - 1 ==> !(p[i] == ';' && p[i + 1] == ';'))
             && (p == [] || p[|p| - 1] != ';')
  {
    if Isolated(p, Delimitador) {
      forall i | 0 <= i < |p| - 1 ensures !(p[i] == ';' && p[i + 1] == ';') {
        StartsWithDelimitador(p[i..] + Delimitador);
        assert (p[i..] + Delimitador)[0] == p[i] && (p[i..] + Delimitador)[1] == p[i + 1];
      }
      if p != [] {
        var x := p[|p| - 1..] + Delimitador;
        StartsWithDelimitador(x);
        assert x[0] == p[|p| - 1] && x[1] == ';';
      }
    }
    if (forall i :: 0 <= i < |p| - 1 ==> !(p[i] == ';' && p[i + 1] == ';')) && (p == [] || p[|p| - 1] != ';') {
      forall i | 0 <= i < |p| ensures !StartsWith(p[i..] + Delimitador, Delimitador) {
        var x := p[i..] + Delimitador;
        StartsWithDelimitador(x);
        assert x[0] == p[i];
        if i < |p| - 1 {
          assert x[1] == p[i + 1];
        }
      }
    }
  }

  lemma IndexOfSegmento(chave: string, valor: string)
    requires '=' !in chave
    ensures IndexOf(Segmento(chave, valor), '=') == |chave|
  {
    var s := Segmento(chave, valor);
    assert s[|chave|] == '=';
  }

  lemma SegmentosSnoc(ps: Params, chave: string, valor: string)
    ensures Segmentos(ps + [(chave, valor)]) == Segmentos(ps) + [Segmento(chave, valor)]
  {
  }

  /** A segment `codificar` writes, from a key without `=`, always holds an `=`, at the key's end. */
  lemma ParSegmento(chave: string, valor: string)
    requires '=' !in chave && Strip(chave) == chave && Strip(valor) == valor
    ensures TemIgual(Segmento(chave, valor)) && Par(Segmento(chave, valor)) == (chave, valor)
  {
    IndexOfSegmento(chave, valor);
    var seg := Segmento(chave, valor);
    assert seg[..|chave|] == chave && seg[|chave| + 1..] == valor;
  }

  /** The segments `codificar` writes, stripped keys without `=` and stripped values, decode to the arguments. */
  lemma {:induction false} ParesSegmentos(ps: Params)
    requires forall i :: 0 <= i < |ps| ==> '=' !in ps[i].0 && Strip(ps[i].0) == ps[i].0 && Strip(ps[i].1) == ps[i].1
    ensures Pares(Segmentos(ps)) == ps
    decreases |ps|
  {
    if ps != [] {
      var init := ps[..|ps| - 1];
      var kv := ps[|ps| - 1];
      assert ps == init + [kv];
      ParesSegmentos(init);
      SegmentosSnoc(init, kv.0, kv.1);
      ParSegmento(kv.0, kv.1);
      var segs := Segmentos(ps);
      assert segs[..|segs| - 1] == Segmentos(init);
      assert segs[|segs| - 1] == Segmento(kv.0, kv.1);
    }
  }

  /** None of the segments `codificar` writes is malformed. */
  lemma SegmentosBemFormados(ps: Params)
    requires forall i :: 0 <= i < |ps| ==> '=' !in ps[i].0 && Strip(ps[i].0) == ps[i].0 && Strip(ps[i].1) == ps[i].1
    ensures PrimeiroMalFormado(Segmentos(ps)) == None
  {
    forall i | 0 <= i < |ps| ensures !MalFormado(Segmentos(ps)[i]) {
      ParSegmento(ps[i].0, ps[i].1);
    }
    PrimeiroMalFormadoIndice(Segmentos(ps));
  }

  /** The arguments `codificar` accepts: distinct keys, none of them `comando`, its own parameter name. */
  predicate KwargsValidos(ps: Params) {
    && (forall i, j :: 0 <= i < j < |ps| ==> ps[i].0 != ps[j].0)
    && (forall i :: 0 <= i < |ps| ==> ps[i].0 != "comando")
  }

  /**
   * `descodificar(codificar(c, **ps))` gives back `c` under `comando` and exactly the arguments,
   * for an upper-case stripped command, stripped keys without `=`, stripped values, and parts
   * that `split` separates again (for `;;`: no `;;` inside, and no `;` at the end of a part that
   * is followed by the delimiter).
   */
  lemma RoundTrip(comando: string, ps: Params)
    requires comando != [] && Strip(comando) == comando && Upper(comando) == comando
    requires forall i :: 0 <= i < |ps| ==> '=' !in ps[i].0 && Strip(ps[i].0) == ps[i].0 && Strip(ps[i].1) == ps[i].1
    requires KwargsValidos(ps)
    requires Separable([comando] + Segmentos(ps), Delimitador)
    ensures Descodificado(Codificar(comando, ps)).Ok?
    ensures var d := Descodificado(Codificar(comando, ps)).value;
      && d.Keys == {"comando"} + (set i | 0 <= i < |ps| :: ps[i].0)
      && d["comando"] == comando
      && forall i :: 0 <= i < |ps| ==> d[ps[i].0] == ps[i].1
  {
    DescodificadoCodificar(comando, ps);
    MapOfDistinct(ps);
    assert "comando" !in MapOf(ps);
  }

  /** The dictionary `descodificar` gives for what `codificar` wrote: the command, then the arguments. */
  lemma DescodificadoCodificar(comando: string, ps: Params)
    requires comando != [] && Strip(comando) == comando && Upper(comando) == comando
    requires forall i :: 0 <= i < |ps| ==> '=' !in ps[i].0 && Strip(ps[i].0) == ps[i].0 && Strip(ps[i].1) == ps[i].1
    requires Separable([comando] + Segmentos(ps), Delimitador)
    ensures Descodificado(Codificar(comando, ps)) == Ok(map["comando" := comando] + MapOf(ps))
  {
    var partes := [comando] + Segmentos(ps);
    SplitJoin(partes, Delimitador);
    assert Split(Codificar(comando, ps), Delimitador) == partes;
    assert partes[1..] == Segmentos(ps);
    ParesSegmentos(ps);
    SegmentosBemFormados(ps);
    StripIdempotent(comando);
    assert Upper(Strip(partes[0])) == comando;
  }

  /**
   * A key, value or command that comes back from `descodificar` as written when `codificar` puts
   * it between delimiters: no white space at its ends, no `;;` inside and no `;` at its end.
   */
  predicate Seguro(v: string) {
    && Strip(v) == v
    && (forall i :: 0 <= i < |v| - 1 ==> !(v[i] == ';' && v[i + 1] == ';'))
    && (v == [] || v[|v| - 1] != ';')
  }

  lemma SegmentoSeguro(chave: string, valor: string)
    requires '=' !in chave && Seguro(chave) && Seguro(valor)
    ensures Isolated(Segmento(chave, valor), Delimitador)
    ensures NoOccurrence(Segmento(chave, valor), Delimitador)
  {
    var s := Segmento(chave, valor);
    var n := |chave|;
    forall i | 0 <= i < |s| - 1 ensures !(s[i] == ';' && s[i + 1] == ';') {
      if i < n - 1 {
        assert s[i] == chave[i] && s[i + 1] == chave[i + 1];
      } else if i == n - 1 {
        assert s[i + 1] == '=';
      } else if i == n {
        assert s[i] == '=';
      } else {
        assert s[i] == valor[i - n - 1] && s[i + 1] == valor[i - n];
      }
    }
    assert s[|s| - 1] == if valor == [] then '=' else valor[|valor| - 1];
    IsoladoDelimitador(s);
    SemDelimitador(s);
  }

  /** The round trip for a safe command, safe keys without `=` and safe values. */
  lemma RoundTripSeguro(comando: string, ps: Params)
    requires comando != [] && Seguro(comando) && Upper(comando) == comando
    requires forall i :: 0 <= i < |ps| ==> '=' !in ps[i].0 && Seguro(ps[i].0) && Seguro(ps[i].1)
    requires KwargsValidos(ps)
    ensures Descodificado(Codificar(comando, ps)).Ok?
    ensures var d := Descodificado(Codificar(comando, ps)).value;
      && d.Keys == {"comando"} + (set i | 0 <= i < |ps| :: ps[i].0)
      && d["comando"] == comando
      && forall i :: 0 <= i < |ps| ==> d[ps[i].0] == ps[i].1
  {
    SeparavelSeguro(comando, ps);
    RoundTrip(comando, ps);
  }

  /** The one-parameter message of a reply, from safe parts, reads back as that command and parameter. */
  lemma RoundTripUmParametro(comando: string, chave: string, valor: string)
    requires comando != [] && Seguro(comando) && Upper(comando) == comando
    requires '=' !in chave && Seguro(chave) && chave != "comando" && Seguro(valor)
    ensures Descodificado(Codificar(comando, [(chave, valor)])) == Ok(map["comando" := comando, chave := valor])
  {
    var ps := [(chave, valor)];
    assert KwargsValidos(ps);
    RoundTripSeguro(comando, ps);
    var d := Descodificado(Codificar(comando, ps)).value;
    assert d.Keys == {"comando", chave} by {
      assert (set i | 0 <= i < |ps| :: ps[i].0) == {chave} by {
        assert ps[0].0 == chave;
      }
    }
    assert d[chave] == valor by {
      assert ps[0] == (chave, valor);
    }
    var m := map["comando" := comando, chave := valor];
    assert d.Keys == m.Keys;
    assert d == m;
  }

  /** What `codificar` writes from a safe command and safe arguments splits back into its parts. */
  lemma SeparavelSeguro(comando: string, ps: Params)
    requires Seguro(comando)
    requires forall i :: 0 <= i < |ps| ==> '=' !in ps[i].0 && Seguro(ps[i].0) && Seguro(ps[i].1)
    ensures Separable([comando] + Segmentos(ps), Delimitador)
  {
    var partes := [comando] + Segmentos(ps);
    IsoladoDelimitador(comando);
    SemDelimitador(comando);
    forall k | 0 <= k < |partes|
      ensures Isolated(partes[k], Delimitador) && NoOccurrence(partes[k], Delimitador)
    {
      if k > 0 {
        assert partes[k] == Segmento(ps[k - 1].0, ps[k - 1].1);
        SegmentoSeguro(ps[k - 1].0, ps[k - 1].1);
      }
    }
  }

  /** A safe key that does not start with `;` is still safe with a `;` in front of it. */
  lemma SeguroComPontoEVirgula(chave: string)
    requires Seguro(chave) && chave != [] && chave[0] != ';'
    ensures Seguro(";" + chave)
  {
    var s := ";" + chave;
    StripKeeps(chave);
    StripKeeps(s);
    forall i | 0 <= i < |s| - 1 ensures !(s[i] == ';' && s[i + 1] == ';') {
      if i > 0 {
        assert s[i] == chave[i - 1] && s[i + 1] == chave[i];
      }
    }
  }

  /**
   * Why the round trip asks more than "no `;;` in a value": `codificar` writes a value ending in
   * `;` followed by another parameter exactly as it writes that value without the `;` followed
   * by a parameter whose key starts with `;`, and `descodificar` reads back the latter.
   */
  lemma ValorTerminadoEmPontoEVirgula(comando: string, chave: string, valor: string, chave2: string, valor2: string)
    requires comando != [] && Seguro(comando) && Upper(comando) == comando
    requires '=' !in chave && Seguro(chave) && chave != "comando" && (chave == [] || chave[0] != ';')
    requires '=' !in chave2 && Seguro(chave2) && chave2 != [] && chave2[0] != ';'
    requires Seguro(valor) && Seguro(valor2)
    ensures Codificar(comando, [(chave, valor + ";"), (chave2, valor2)])
         == Codificar(comando, [(chave, valor), (";" + chave2, valor2)])
    ensures var d := Descodificado(Codificar(comando, [(chave, valor + ";"), (chave2, valor2)]));
      && d.Ok?
      && d.value.Keys == {"comando", chave, ";" + chave2}
      && d.value[chave] == valor
      && d.value[";" + chave2] == valor2
  {
    CodificarPontoEVirgula(comando, chave, valor, chave2, valor2);
    LidoComPontoEVirgula(comando, chave, valor, chave2, valor2);
  }

  /** What `descodificar` reads from the second of the two messages above. */
  lemma LidoComPontoEVirgula(comando: string, chave: string, valor: string, chave2: string, valor2: string)
    requires comando != [] && Seguro(comando) && Upper(comando) == comando
    requires '=' !in chave && Seguro(chave) && chave != "comando" && (chave == [] || chave[0] != ';')
    requires '=' !in chave2 && Seguro(chave2) && chave2 != [] && chave2[0] != ';'
    requires Seguro(valor) && Seguro(valor2)
    ensures var d := Descodificado(Codificar(comando, [(chave, valor), (";" + chave2, valor2)]));
      && d.Ok?
      && d.value.Keys == {"comando", chave, ";" + chave2}
      && d.value[chave] == valor
      && d.value[";" + chave2] == valor2
  {
    SeguroComPontoEVirgula(chave2);
    assert '=' !in ";" + chave2;
    assert chave != ";" + chave2 && ";" + chave2 != "comando";
    RoundTripDoisParametros(comando, chave, valor, ";" + chave2, valor2);
  }

  /** The two-parameter message, from safe parts and two distinct keys, reads back as written. */
  lemma RoundTripDoisParametros(comando: string, chave: string, valor: string, chave2: string, valor2: string)
    requires comando != [] && Seguro(comando) && Upper(comando) == comando
    requires '=' !in chave && Seguro(chave) && chave != "comando" && Seguro(valor)
    requires '=' !in chave2 && Seguro(chave2) && chave2 != "comando" && Seguro(valor2)
    requires chave != chave2
    ensures Descodificado(Codificar(comando, [(chave, valor), (chave2, valor2)]))
         == Ok(map["comando" := comando, chave := valor, chave2 := valor2])
  {
    var ps := [(chave, valor), (chave2, valor2)];
    assert KwargsValidos(ps);
    RoundTripSeguro(comando, ps);
    var d := Descodificado(Codificar(comando, ps)).value;
    assert d.Keys == {"comando", chave, chave2} by {
      assert (set i | 0 <= i < |ps| :: ps[i].0) == {chave, chave2} by {
        assert ps[0].0 == chave && ps[1].0 == chave2;
      }
    }
    assert d[chave] == valor && d[chave2] == valor2 by {
      assert ps[0] == (chave, valor) && ps[1] == (chave2, valor2);
    }
    MapaDeTres(d, "comando", comando, chave, valor, chave2, valor2);
  }

  /** A dictionary is determined by its keys and the values under them. */
  lemma MapaDeTres(d: Dados, a: string, va: string, b: string, vb: string, c: string, vc: string)
    requires d.Keys == {a, b, c} && d[a] == va && d[b] == vb && d[c] == vc
    ensures d == map[a := va, b := vb, c := vc]
  {
    var m := map[a := va, b := vb, c := vc];
    assert d.Keys == m.Keys;
  }

  lemma CodificarPontoEVirgula(comando: string, chave: string, valor: string, chave2: string, valor2: string)
    ensures Codificar(comando, [(chave, valor + ";"), (chave2, valor2)])
         == Codificar(comando, [(chave, valor), (";" + chave2, valor2)])
  {
    var escrito := [(chave, valor + ";"), (chave2, valor2)];
    var lido := [(chave, valor), (";" + chave2, valor2)];
    CodificarParams(comando, [], chave, valor + ";");
    assert [] + [(chave, valor + ";")] == [(chave, valor + ";")];
    CodificarParams(comando, [(chave, valor + ";")], chave2, valor2);
    assert [(chave, valor + ";")] + [(chave2, valor2)] == escrito;
    CodificarParams(comando, [], chave, valor);
    assert [] + [(chave, valor)] == [(chave, valor)];
    CodificarParams(comando, [(chave, valor)], ";" + chave2, valor2);
    assert [(chave, valor)] + [(";" + chave2, valor2)] == lido;
    assert comando + Delimitador + chave + "=" + (valor + ";") + Delimitador + chave2 + "=" + valor2
        == comando + Delimitador + chave + "=" + valor + Delimitador + (";" + chave2) + "=" + valor2;
  }
}
