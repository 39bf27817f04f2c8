# Parking-System-Distributed-Secure, modelled in Dafny

The system is a distributed parking lot; the model covers four parts of it:

- **The text protocol** (`protocolo.py`) is what the parking spaces and the lot server speak.
  - A message is a command, then `key=value` parameters, all joined by `;;`.
  - `codificar` writes a message. `descodificar` reads it back into a dictionary. On bad input it raises `ComandoInvalido` or `FormatoInvalido`.
- **The lot server** (`parque.py`) is the class `Parque` and its TCP handler `handle_client`.
  - `Parque` holds the capacity, the spaces (`id -> LIVRE/OCUPADO`), the map from a space's name to its id, the ids each connection owns, and the next id.
  - `handle_client` answers `INIT` (register or reconnect), `UPDATE` (change a space's state) and `INFO`. Every protocol, key or value error becomes an `ERRO;;msg=...` reply.
  - When a connection closes, the server frees the spaces that connection owned.
- **The space simulator** (`lugar.py`) models each parking space.
  - A space registers with `INIT` and then, tick after tick, draws its next state.
  - It sends an `UPDATE`, sometimes deliberately malformed in one of four ways chosen by a second draw, and reads the reply.
  - It reconnects after a failure and keeps its name and its state.
- **The signed envelope** covers both sides of one exchange.
  - The server signs what it publishes (`Parque.assinar_mensagem`: RSA-PSS over SHA-256, signature bytes decoded as cp437).
  - The web client checks the certificate against the issuer key, then tries the message signature over six JSON serialisations and three paddings (`validar_resposta_segura`).

The Dafny modules follow these files:

| file | module | what it holds |
|---|---|---|
| `results.dfy` | `Results` | `Option`, `Result`, a map built from key/value pairs |
| `text.dfy` | `Text` | the Python string operations the protocol needs: `strip`, `upper`, `split`, `join`, `int()` and `str()` of integers, `repr` |
| `codec.dfy` | `Codec` | the encoder as a function; the decoder as a method with its loop, proved equal to a specification function; the round trip and every error case |
| `registry.dfy` | `Registry` | the server state as a value (`EstadoParque`) and its invariant; one function per step of the server; the class `Parque`, whose methods change its fields in place and are proved to reach the state the matching function gives |
| `simulator.dfy` | `Simulator` | the Markov step, the five message bands, the reply handling and the reconnect loop (a function over a script of events, plus a method with the loop); what the server answers to each band |
| `attestation.dfy` | `Attestation` | the cp437 codec over its table, the signer, the ordered search over (serialisation, padding) pairs, the verifier as a function plus the method with its two loops; the proof that an envelope the server signed is accepted on the first attempt |

Crypto, X.509 parsing, `json.dumps`, `str()` of non-string values, UTF-8 and the cp437 table are code outside the model.
- They are the fields of `Attestation.Biblioteca`.
- Each proof states what it needs of them as a premise. For example, `verify` accepts what `sign` produced, and the cp437 table is injective.

Where the specification of the system and the code disagree, the code is followed. An `UPDATE` for an id the server does not know is answered `ERRO;;msg='ID inválido'`, with the quotes. The quotes come from `str()` of a `KeyError`; the specification writes the text without them.

## Model

| member | source | states |
|---|---|---|
| Text.StripKeeps | protocolo.py:33 | `strip()` leaves a text unchanged exactly when it is empty or neither end is whitespace |
| Text.StripEmpty | protocolo.py:34 | `strip()` gives the empty text exactly when every character is whitespace |
| Text.StripIdempotent | lugar.py:39 | stripping an already stripped reply again changes nothing |
| Text.UpperLength | protocolo.py:33 | `upper()` keeps the length, so a non-empty command stays non-empty |
| Text.UpperKeeps | protocolo.py:33 | `upper()` leaves a text without lower-case letters unchanged |
| Text.JoinSnoc | protocolo.py:24 | joining one more part appends the delimiter and that part |
| Text.SplitWhole | protocolo.py:32 | a text without the delimiter splits into itself alone |
| Text.SplitCut | protocolo.py:32 | a part that the delimiter cannot overlap is split off exactly at the first delimiter after it |
| Text.SplitJoin | protocolo.py:32 | `split` undoes `join` for parts that hold no delimiter and do not run into it |
| Text.NatToString | protocolo.py:23 | the decimal text of a natural number is non-empty and all digits |
| Text.DigitsValueOfNat | parque.py:197 | the digits written for a natural number read back as that number |
| Text.ParseIntRun | parque.py:197 | `int()` accepts a run of digits with single underscores between them and reads its decimal value |
| Text.ParseIntNegativeRun | parque.py:197 | `int()` accepts such a run after a minus sign and reads the negated value |
| Text.ParseIntToString | parque.py:197 | `int(str(i)) == i` for every integer `i`, so the id a space writes is the id the server reads |
| Codec.CodificarParams | protocolo.py:17-24 | a command with no parameters is itself; each further parameter appends `;;key=value` in argument order |
| Codec.CodificarExemplo | protocolo.py:19-21 | the documented example `codificar("UPDATE", id=3, estado="OCUPADO")` gives `UPDATE;;id=3;;estado=OCUPADO` |
| Codec.Descodificado | protocolo.py:27-45 | a decoded dictionary always holds `comando` |
| Codec.Descodificar | protocolo.py:27-45 | the loop over the segments yields exactly the specified decoding: the same dictionary, or the same first error |
| Codec.ParametrosSnoc | protocolo.py:38-41 | a segment with `=` adds or overwrites its stripped key with its stripped value; a segment without `=` adds nothing |
| Codec.PrimeiroMalFormadoIndice | protocolo.py:38-43 | no malformed segment is reported exactly when none is malformed, and the one reported is the first malformed one |
| Codec.DescodificadoComandoVazio | protocolo.py:32-35 | decoding fails with `Comando vazio` exactly when the text before the first `;;` is blank |
| Codec.DescodificadoFormatoInvalido | protocolo.py:38-43 | decoding fails with `FormatoInvalido` exactly when the command is not blank and some later segment has text but no `=`; the message names the first such segment |
| Codec.DescodificadoOk | protocolo.py:32-45 | decoding succeeds exactly when the command is not blank and no segment is malformed; `Comando vazio` and `FormatoInvalido` are its only errors |
| Codec.DescodificadoComando | protocolo.py:45 | the keys of a decoded message are `comando` plus the parameter keys; a parameter named `comando` overrides the command read from the first part |
| Codec.DescodificadoSoComando | protocolo.py:30-35 | a bare command decodes to that command, stripped and upper-cased, and nothing else |
| Codec.PalavraSimples | protocolo.py:30-33 | a word of capital letters reads back as itself and nothing else |
| Codec.DescodificadoSemIgual | protocolo.py:42-43 | a command followed by a segment with text but no `=` fails with `FormatoInvalido` naming that segment |
| Codec.ParametrosUltimo | protocolo.py:41 | when a key is repeated, the value of its last segment wins |
| Codec.SemDelimitador | protocolo.py:2 | a text holds no `;;` exactly when no two `;` stand next to each other |
| Codec.IsoladoDelimitador | protocolo.py:32 | a part that `split` cuts exactly where it ends has no two adjacent `;` and does not end in `;` |
| Codec.ParSegmento | protocolo.py:39-41 | a segment written from a stripped key without `=` and a stripped value reads back as that pair |
| Codec.ParesSegmentos | protocolo.py:38-41 | the segments `codificar` writes read back as the arguments, in order |
| Codec.SegmentosBemFormados | protocolo.py:38-43 | no segment `codificar` writes is malformed |
| Codec.RoundTrip | protocolo.py:17-45 | decoding an encoded message succeeds. Its keys are `comando` and the argument keys, and every argument reads back with its own value. This holds when the parts cannot be confused with the delimiter |
| Codec.DescodificadoCodificar | protocolo.py:17-45 | decoding an encoded message gives exactly `{"comando": comando, **kwargs}` |
| Codec.SegmentoSeguro | protocolo.py:23 | a segment of a safe key and a safe value neither holds nor runs into `;;` |
| Codec.SeparavelSeguro | protocolo.py:24 | a safe command and safe segments are parts that `split` recovers |
| Codec.RoundTripSeguro | protocolo.py:17-45 | the round trip for safe texts: not blank at the ends, no `;`, and a key without `=` |
| Codec.RoundTripUmParametro | protocolo.py:17-45 | a command with one safe parameter decodes to exactly that command and that pair |
| Codec.RoundTripDoisParametros | protocolo.py:17-45 | a command with two safe parameters under different keys decodes to exactly that command and those two pairs |
| Codec.MapaDeTres | protocolo.py:45 | a dictionary with three given keys and values is that three-entry dictionary |
| Codec.CodificarPontoEVirgula | protocolo.py:23-24 | a value ending in `;` followed by another parameter is written exactly like that value without the `;` before a key starting with `;` |
| Codec.SeguroComPontoEVirgula | protocolo.py:23 | a key with one `;` put in front of it is still safe |
| Codec.LidoComPontoEVirgula | protocolo.py:32-43 | the text that both writings produce decodes with the `;` on the second key |
| Codec.ValorTerminadoEmPontoEVirgula | protocolo.py:17-45 | a value that ends in `;` is not read back: the first value loses its `;` and the next key gains it |
| Registry.Novo | parque.py:29-52 | a new server has no spaces, no names and no connections, starts ids at 1 and satisfies the invariant |
| Registry.Parque.constructor | parque.py:29-52 | the object starts in the state `Novo` describes and satisfies the invariant |
| Registry.ContarOcupadosLimite | parque.py:108-110 | there are never more occupied spaces than spaces |
| Registry.ContarOcupadosAtualizar | parque.py:106 | setting one space's state changes the occupied count by that space's change alone |
| Registry.ContarOcupadosNovo | parque.py:95 | adding a free space leaves the occupied count unchanged |
| Registry.LivresLimite | parque.py:114 | the free count `info()` shows lies between 0 and the capacity |
| Registry.IdsAteCapacidade | parque.py:89-97 | ids are handed out one by one from 1 and never removed, so every space's id lies between 1 and the capacity, and no id above the capacity names a space |
| Registry.RegistarPreserva | parque.py:89-97 | registration fails exactly when the lot is full, and then nothing changes. Otherwise it hands out a fresh id no name points at, adds that one space as free, leaves the occupied count as it was, and keeps the invariant |
| Registry.Parque.RegistarLugar | parque.py:89-97 | the method's result and new fields are those of the registration function on the old fields |
| Registry.AtualizarPreserva | parque.py:99-106 | an unknown id raises `KeyError("ID inválido")`, and a state other than `LIVRE`/`OCUPADO` raises `ValueError("Estado inválido")`. Only a known id with a valid state succeeds: it sets that one space and changes nothing on failure. The invariant is kept |
| Registry.Parque.AtualizarEstado | parque.py:99-106 | the method's outcome and new fields are those of the update function on the old fields |
| Registry.LigarPreserva | parque.py:142-143 | a new connection gets an entry and leaves spaces and names alone |
| Registry.InitReconexao | parque.py:167-177 | `INIT` with a known name answers the same id. It frees that space without adding spaces or names, adds the id to the connection at most once, and keeps the invariant |
| Registry.InitNovo | parque.py:178-189 | `INIT` with a new name in a full lot answers `Capacidade máxima atingida` and changes nothing. Otherwise it answers the next id, records the name and the owner, adds one free space and keeps the invariant |
| Registry.Parque.TratarInit | parque.py:160-189 | the method's reply and new fields are those of the `INIT` function |
| Registry.UpdateIdResultados | parque.py:197-210 | `UPDATE` for an unknown id answers `'ID inválido'` (quoted), and for a state that does not upper-case to `LIVRE`/`OCUPADO` it answers `Estado inválido`; both change nothing. Otherwise it sets the upper-cased state and reports the new occupied count over the capacity |
| Registry.UpdateIdIlegivel | parque.py:197 | an id `int()` cannot read is answered with the `ValueError` text and changes nothing. That text is the fixed prefix plus the quoted id, cut to 200 characters as `%.200R` does |
| Registry.ErroIntCorte | parque.py:197 | the `ValueError` text quotes an id of up to 198 characters whole; a longer one keeps only its first 199 characters after the opening quote, with no closing quote, and the text is never longer than the prefix plus 200 |
| Registry.Parque.TratarUpdate | parque.py:193-210 | the method's reply and new fields are those of the `UPDATE` function |
| Registry.AtenderSemEfeito | parque.py:213-218 | `INFO`, an unknown command and a rejected request change nothing |
| Registry.AtenderPreserva | parque.py:155-227 | any request keeps the invariant and the capacity. It never removes a space or a name, never re-points a name, and never lowers the next id |
| Registry.Parque.TratarPedido | parque.py:157-227 | the method's reply and new fields are those of the request function |
| Registry.Parque.TratarMensagem | parque.py:152-227 | the method's reply and new fields are those of the function that decodes and answers one message |
| Registry.Conversa | parque.py:146-230 | one reply is sent per message received |
| Registry.ConversaPreserva | parque.py:146-230 | a whole conversation keeps the invariant. It never removes a space or a name and never re-points a name |
| Registry.Parque.Conversar | parque.py:146-230 | the loop's replies and new fields are those of the conversation function |
| Registry.LibertarIdsSnoc | parque.py:239-241 | freeing one more owned id frees that space if it exists and nothing else |
| Registry.LibertarPreserva | parque.py:236-241 | on disconnect every space the connection owned becomes free and every other space is unchanged. No space, name, connection or id counter changes, the occupied count does not grow, and the invariant is kept |
| Registry.Parque.Desligar | parque.py:236-241 | the loop's new fields are those of the release function |
| Registry.SessaoPreserva | parque.py:137-241 | a whole session (connect, converse, release) keeps the invariant and every name's id |
| Registry.Parque.AtenderCliente | parque.py:137-241 | the session method reaches the state of the session function and keeps the object valid |
| Registry.ReligarMesmoId | parque.py:167-177 | after a disconnect, the same name connecting over any connection gets its old id back, with no new space or id |
| Registry.RespostaTexto | parque.py:176-181 | the replies are `OK;;key=value` and `ERRO;;msg=text` |
| Registry.MensagemTexto | lugar.py:44 | the `INIT` and `UPDATE` a space writes are `INIT;;nome=…` and `UPDATE;;id=…;;estado=…` |
| Registry.SeguroSimples | protocolo.py:23 | a non-blank-ended text without `;` is safe to send as a value |
| Registry.IntToStringSeguro | parque.py:188 | an id's decimal text is safe to send as a value |
| Registry.ClassificarDados | parque.py:152-157 | the server classifies a stripped message by its decoded dictionary |
| Registry.MensagemInitStrip | parque.py:152 | the server's `strip()` leaves a space's `INIT` unchanged |
| Registry.DescodificadoInit | parque.py:156-161 | the server reads a space's `INIT` as that command with its name |
| Registry.ClassificarInit | parque.py:160-164 | a space's `INIT` with a non-empty safe name is an `INIT` request for that name |
| Registry.ParametrosUpdateSeguros | lugar.py:77 | the two `UPDATE` parameters have safe keys, distinct and not `comando` |
| Registry.MensagemUpdateStrip | parque.py:152 | the server's `strip()` leaves a space's `UPDATE` unchanged |
| Registry.DescodificadoUpdate | parque.py:193-198 | the server reads a space's `UPDATE` as that command with its id text and state |
| Registry.ClassificarUpdate | parque.py:193-198 | a space's `UPDATE` is an update request for that id text and state |
| Registry.ClassificarInfo | parque.py:213-214 | `INFO` is an info request |
| Registry.ResponderInitMensagem | parque.py:156-189 | answering the wire text of an `INIT` is answering the `INIT` request |
| Registry.ResponderUpdateMensagem | parque.py:156-210 | answering the wire text of an `UPDATE` is answering the update request |
| Registry.ResponderUpdateIdMensagem | parque.py:197-210 | an `UPDATE` whose id was written by `str()` is answered for that very id |
| Registry.CenarioRegisto | parque.py:160-189 | in a lot of capacity 2, three new names get ids 1 and 2 and then `Capacidade máxima atingida`, and the third changes nothing |
| Registry.TextosRegisto | parque.py:176 | the replies for ids 1 and 2 are `OK;;id=1` and `OK;;id=2` |
| Registry.TextoCapacidade | parque.py:181 | the full-lot reply is `ERRO;;msg=Capacidade máxima atingida` |
| Registry.TextoAtualizado | parque.py:202-205 | the update reply for 1 occupied of 2 is `OK;;msg=estado atualizado (1/2)` |
| Registry.TextoIdInvalido | parque.py:227 | the unknown-id reply is `ERRO;;msg='ID inválido'` |
| Registry.CenarioCapacidadeDois | parque.py:152-189 | the registration scenario on the wire: three `INIT`s give `OK;;id=1`, `OK;;id=2` and `ERRO;;msg=Capacidade máxima atingida` |
| Registry.ContarUmOcupado | parque.py:110 | one occupied space of two counts as 1 |
| Registry.OcuparUm | parque.py:197-205 | occupying space 1 of two free spaces answers `1/2` and changes only that space |
| Registry.CenarioOcupar | parque.py:193-205 | the same on the wire |
| Registry.CenarioDesconhecido | parque.py:220-227 | an `UPDATE` for id 99, which the lot does not have, is answered with the `KeyError` text and changes nothing |
| Registry.CenarioAtualizacao | parque.py:193-227 | the update scenario on the wire: occupying id 1 answers `OK;;msg=estado atualizado (1/2)`, id 99 answers `ERRO;;msg='ID inválido'`, and only space 1 is occupied |
| Simulator.ProximoEstado | lugar.py:59-65 | a free space becomes occupied exactly when the draw is below `PO`, an occupied one becomes free exactly when it is below `PL`, and any other state is kept |
| Simulator.BandaDe | lugar.py:71-86 | the band of each draw: malformed below 0.05, unknown id below 0.10, unknown command below 0.15, invalid state below 0.25, correct otherwise, each iff |
| Simulator.ReceberResposta | lugar.py:34-39 | an empty read is exactly the `ConnectionError`; any other read is the stripped text |
| Simulator.SimularSnoc | lugar.py:102-121 | one more event runs one more pass on the state the earlier events reached |
| Simulator.SimularConcat | lugar.py:102-121 | running two scripts one after the other is running their concatenation |
| Simulator.SimularParado | lugar.py:128-130 | a stopped simulation ignores everything and sends nothing |
| Simulator.SimularAteParar | lugar.py:128-130 | once a prefix has stopped the simulation, the rest of the script changes nothing |
| Simulator.SimularInvariante | lugar.py:100 | a run keeps the name and a valid state. Every `INIT` sent carries the space's own name and every `UPDATE` a valid state |
| Simulator.SimularLugar | lugar.py:98-130 | the method's loop ends in the locals and sent messages of the run function |
| Simulator.EstadoSoNoCiclo | lugar.py:118-121 | the state changes only on an update pass, by one Markov step, and the name never changes |
| Simulator.FalhasReligam | lugar.py:111-126 | a failed connection keeps the space disconnected. After its `INIT` is sent, a refusal or a closed connection keeps it disconnected too. A closed connection during updates disconnects it and keeps the new state |
| Simulator.MensagemSemEspacos | lugar.py:44 | a message with a safe command and value survives the server's `strip()` |
| Simulator.LerRespostaSegura | lugar.py:90-95 | a reply with a safe command and one safe pair is read back as exactly that |
| Simulator.ObterIdAtribuido | lugar.py:52-55 | the reply `OK;;id=n` gives the id `n` |
| Simulator.ObterIdRecusado | lugar.py:52-53 | an `ERRO` reply raises `ValueError("Resposta inesperada ao INIT: …")` with the reply text |
| Simulator.IdInit | lugar.py:42-55 | against the server's `INIT` answer, a space gets an id exactly when its name is known or the lot has room. That id is the one the server recorded for its name, a known name gets its old id, and otherwise the error is a `ValueError` |
| Simulator.IdDoParque | lugar.py:42-55 | the same, with the space's `INIT` sent over the wire and decoded by the server |
| Simulator.LigacaoAoParque | lugar.py:104-116 | a connection attempt sends `INIT` and ends registered under the server's id for its name exactly when the server accepts it, disconnected otherwise |
| Simulator.MalFormadaRecusada | lugar.py:72-74 | the malformed band's message fails to decode with `Parâmetro mal formatado: id` |
| Simulator.UpdateSemIgual | lugar.py:74 | a word of capital letters, `;;`, then a word of small letters with no `=` (the band's `UPDATE;;id`) is stripped already and fails with `FormatoInvalido` naming that second word |
| Simulator.RespostaRecusada | parque.py:220-227 | a message that fails to decode is answered `ERRO` with the protocol error's text and changes nothing |
| Simulator.RespostaMalFormada | lugar.py:72-74 | the server answers the malformed band with `ERRO;;msg=Parâmetro mal formatado: id` and changes nothing |
| Simulator.RespostaComandoDesconhecido | lugar.py:78-80 | the server answers `START` with `Comando inválido: START` and changes nothing |
| Simulator.RespostaPalavraDesconhecida | parque.py:215-218 | any bare word of capital letters other than `INIT`, `UPDATE` and `INFO` is answered `Comando inválido: ` plus that word, and changes nothing |
| Simulator.RespostaIdInexistente | lugar.py:75-77 | in a lot whose capacity is below 9999 (the configured one is 25), the server answers id 9999 with `'ID inválido'` and changes nothing |
| Simulator.RespostaEstadoInvalido | lugar.py:81-83 | the server answers state `INVALIDO` for a known id with `Estado inválido` and changes nothing |
| Simulator.RespostaCorreta | lugar.py:84-86 | the server records a correct update for the space's own id, reports the count and keeps its invariant |
| Simulator.AtualizadoSeguro | parque.py:204 | the update report is safe to send as a value |
| Simulator.DigitosSemPontoEVirgula | parque.py:204 | a number's decimal text holds no `;` |
| Simulator.RespostasLegiveis | lugar.py:90-95 | every `ERRO` and update `OK` the server sends decodes on the space's side to the same command and text |
| Simulator.MalFormadoSeguro | parque.py:227 | the refusal text of the malformed band is safe to send as a value |
| Simulator.IdInvalidoSeguro | parque.py:227 | the refusal text of the unknown-id band is safe to send as a value |
| Simulator.ComandoInvalidoSeguro | parque.py:227 | the refusal text of the unknown-command band is safe to send as a value |
| Simulator.EstadoInvalidoSeguro | parque.py:227 | the refusal text of the invalid-state band is safe to send as a value |
| Simulator.EstadoSeguro | lugar.py:86 | `LIVRE` and `OCUPADO` are safe to send |
| Simulator.AtendidaRecusa | parque.py:227 | a refusal in a wrong band leaves the server as it was and reads back as `ERRO` |
| Simulator.AtendidaMalFormada | lugar.py:72-74 | the malformed band: no change to the server, an `ERRO` reply the space reads back |
| Simulator.AtendidaIdInexistente | lugar.py:75-77 | the unknown-id band, in a lot whose capacity is below 9999: no change, an `ERRO` reply the space reads back |
| Simulator.IdInexistenteExistente | lugar.py:75-77 | a lot that has a space 9999 has a capacity of at least 9999, and there the unknown-id band is not refused: space 9999 takes the state sent and the reply is the `OK` update report |
| Simulator.AtendidaComandoDesconhecido | lugar.py:78-80 | the unknown-command band: no change, an `ERRO` reply the space reads back |
| Simulator.AtendidaEstadoInvalido | lugar.py:81-83 | the invalid-state band: no change, an `ERRO` reply the space reads back |
| Simulator.AtendidaCorreta | lugar.py:84-86 | the correct band: only the space's own entry changes, and the reply is an `OK` the space reads back |
| Simulator.RespostaAtualizacao | lugar.py:68-95 | in a lot whose capacity is below 9999, and in every band, the server changes only in the correct band and only at the space's id. The reply is `OK` exactly in the correct band, and it always reads back, so the space never loses its connection over it |
| Simulator.PassoCiclo | lugar.py:118-121 | an update pass with a readable reply keeps the space registered, takes one Markov step and sends one `UPDATE` in the drawn band |
| Simulator.CicloAtendido | lugar.py:118-121 | against the real server with a capacity below 9999, an update pass is answered as its band says and leaves the space registered with its new state |
| Attestation.Descodificar437 | parque.py:86 | cp437 decoding maps each byte to its table character, one for one |
| Attestation.Posicao437 | cliente_web.py:65 | the byte found for a character maps to it; when none is found, no byte maps to it |
| Attestation.Codificar437 | cliente_web.py:65 | cp437 encoding, when it succeeds, decodes back to the text; it fails only on a character outside the table |
| Attestation.Intraduziveis | cliente_web.py:65 | the run of characters outside the table at the start of a text: every character in it is outside the table, and the one after it is inside |
| Attestation.Codificar437Erro | cliente_web.py:65 | encoding fails at the first character outside the table, with its position in the original text and the whole run of such characters from there as the error's subject |
| Attestation.Cp437IdaEVolta | cliente_web.py:65 | encoding the cp437 decoding of any bytes gives those bytes back, for an injective table |
| Attestation.BytesDaAssinatura | cliente_web.py:65 | a signature that is not a string raises the `AttributeError` of `.encode` |
| Attestation.Candidatos | cliente_web.py:68-81 | a dictionary gives the six serialisations in the listed order; anything else gives `str()` of it alone |
| Attestation.AssinarMensagem | parque.py:65-86 | the signature text has one character per signature byte |
| Attestation.AssinadoEPrimeiroCandidato | parque.py:72-75 | the bytes the server signs are the client's first candidate |
| Attestation.LinhaForma | cliente_web.py:84-94 | the paddings are tried in the order `PSS_MAX`, `PSS_32`, `PKCS1v15` |
| Attestation.OrdemForma | cliente_web.py:99-100 | the attempt order holds every (candidate, padding) pair once, starting at the first and ending at the last |
| Attestation.OrdemLexicografica | cliente_web.py:99-100 | the attempt order is candidate-major, then padding |
| Attestation.Percurso | cliente_web.py:99-115 | the search makes no more attempts than there are pairs |
| Attestation.PercursoForma | cliente_web.py:99-115 | the search stops at the first pair that verifies; every earlier attempt failed; with no valid pair it tries them all |
| Attestation.PercursoFalhas | cliente_web.py:110-113 | failed attempts are passed over |
| Attestation.PercursoAte | cliente_web.py:108-109 | the attempts end exactly at the first valid pair |
| Attestation.AceitaNaOrdem | cliente_web.py:99-115 | the signature is accepted exactly when some pair in the order verifies |
| Attestation.Pesquisa | cliente_web.py:96-118 | the attempts are a prefix of the order, all failed but the last, and the last succeeded exactly when the signature is accepted. When it is refused, every pair was tried, ending at the last |
| Attestation.TentarPaddings | cliente_web.py:100-113 | the inner loop over the paddings makes the specified attempts for one candidate. It succeeds exactly when one of them verifies and, if all fail, reports the last |
| Attestation.PassoLinha | cliente_web.py:114-115 | the outer loop stops after the candidate that verified and otherwise goes on to the next |
| Attestation.Procurar | cliente_web.py:96-118 | the two loops make exactly the specified attempts and accept exactly when some pair verifies. On refusal they report the last pair's failure: `InvalidSignature` or the exception's type and text |
| Attestation.Certificar | cliente_web.py:47-56 | a certificate is accepted only if it is a string that parses and the issuer key verifies its signature with PKCS#1 v1.5 |
| Attestation.Veredito | cliente_web.py:30-121 | the envelope is accepted exactly when the issuer key is loaded, the three fields are present, the certificate verifies and its signature encodes, and some candidate verifies under some padding with the certificate's key. Each failed check gives its own refusal and tries no signature: missing issuer key, incomplete data, the certificate's error, the encoding error. When no pair verifies, the refusal reports the last attempt, `(n-1, PKCS1v15)`. With every check passed, the attempts are the ordered search's walk |
| Attestation.ValidarRespostaSegura | cliente_web.py:30-121 | the method's result and attempts are those of the verdict function |
| Attestation.PrimeiraTentativa | cliente_web.py:99-109 | when the first pair verifies, the search makes that one attempt and accepts |
| Attestation.EnvelopeDoParqueAceite | parque.py:65-86 | an envelope the server signed accepts on the first attempt, given a certificate for its key that the issuer signed |
| Attestation.MensagemVaziaCompleta | cliente_web.py:43 | only a missing message counts as incomplete; an empty dictionary does not |

## Left out

- Sockets, `recv`/`sendall` and TCP framing are out: what a socket returns is a parameter or an event, and a read is one whole message.
- `recv` errors, `OSError` and failed sends are out of the simulator; they are folded into the empty read, which the loop treats the same way.
- Threads and the lock are out: every handler step is one atomic step. In the source, `handle_client` also changes the shared maps outside the lock, in `INIT`, so concurrent clients can interleave there.
- The Flask routes and the REST API of `parque.py` and `cliente_web.py` are not part of this model.
- The rest of `cliente_web.py` is not part of this model: its HTTP calls, key loading and user interface.
- The key pair generation and certificate request in `Parque.__init__` are out: keys are abstract values.
- RSA, the X.509 loader, `json.dumps`, `str()` of non-string values and UTF-8 are out: they are fields of `Biblioteca`, and a proof states as a premise what it needs of them.
- The cp437 table is out: it is a parameter, assumed injective where a round trip needs it. The text of a `UnicodeEncodeError` is a parameter too, given the run of characters it covers and where the run starts.
- `cert.public_key()` is taken not to raise.
- Floating point is out of `info()`: the name, location and fares lines are one fixed text (`descricao`).
- JSON numbers are integers only.
- The random draws are `real` parameters assumed in [0, 1); the generator itself is out.
- `time.sleep` is out: sleeping, intervals and back-off have no effect on the state.
- `KeyboardInterrupt` is the `Interrupcao` event.
- The threads started per space (`LUGARES_CLIENTE`) are out.
- `log` and `print` output are out.
- `Text.Upper` changes ASCII letters only; the Unicode case mapping of Python's `upper()` for other letters is not modelled.
- `Text.ParseInt` accepts ASCII digits only; Python's `int()` also accepts other Unicode decimal digits.
- `Text.ParseInt` strips with the whole `str.isspace` set, while `int()` skips only some of it: `\x1c` to `\x1f` around the digits make `int()` raise but are accepted here. The values it reads at `parque.py:197` and `lugar.py:55` were already stripped with that same set by `descodificar`, so no path reaches the difference.
- `Text.Repr` wraps in single quotes without escaping; `repr` of a text holding quotes or control characters is not modelled. The 200-character cut of `%.200R` is modelled, in `Registry.ErroInt`.
- `Registry.Novo`: capacity is a `nat`; a negative capacity is not modelled.
- Simulator.RespostaAtualizacao, Simulator.CicloAtendido, Simulator.AtendidaIdInexistente and Simulator.RespostaIdInexistente assume a capacity below 9999, as in `config.py` (25). Only then is the unknown-id band refused. With a capacity of 9999 or more, space 9999 can exist, and the band then updates it (`Simulator.IdInexistenteExistente`).
- The `UnicodeDecodeError` that `data.decode()` can raise at `parque.py:152` is out: it is not caught and ends the handler. The model reads text, not bytes.
- UTF-8 encoding failures on lone surrogates are out.
- A `BrokenPipeError` from `sendall` at `parque.py:230` is out: it escapes `handle_client` before the release. Every session here ends through the release.
- An event that cannot happen in the current phase is an event the loop does not take. Examples are an update pass while disconnected and a connection while registered. Such an event leaves the space unchanged.
- Codec.RoundTrip: the round trip needs every part to be separable from `;;`, which is more than "no `;;` inside". A value that ends in `;` breaks it (`Codec.ValorTerminadoEmPontoEVirgula`). `codificar` escapes nothing, so the round-trip lemmas carry this as a premise instead of a weaker claim.
- A `ProtocoloErro` raised while a space decodes a reply is not caught by `simular_lugar`'s handlers. Those catch only `ConnectionError`, `ValueError` and `OSError`, so that thread ends. The model moves the space to `Parado`.
