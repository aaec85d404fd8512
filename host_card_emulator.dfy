/** HostCardEmulatorService: the entry point the NFC stack calls. It checks a command
    synchronously, answers a malformed one at once and hands a well-formed one to a
    worker; it also keeps the session flag and the communication history. Workers are
    kept as pending tasks that `Complete` runs one at a time, in any order. */
module CardEmulator {
  import opened Apdu
  import opened LookupTable
  import opened Resolution
  import opened Framing
  import opened Network
  import opened Handler
  import opened Session

  class HostCardEmulatorService {
    /** The shared ResponseHandler (static state in the source). */
    const handler: ResponseHandler
    var isNewCommunication: bool
    /** Workers started and not yet finished. */
    var pending: seq<Task>
    /** The responses given to sendResponseApdu, in order. */
    var sent: seq<ResponseApdu>
    var log: seq<LogEntry>
    var history: seq<HistoryEntry>

    ghost predicate Valid()
      reads this, handler, handler.network
    {
      handler.Valid() && SessionInvariant(log, isNewCommunication)
    }

    constructor (handler: ResponseHandler)
      requires handler.Valid()
      ensures Valid() && this.handler == handler
      ensures isNewCommunication
      ensures pending == [] && sent == [] && log == [] && history == []
    {
      this.handler := handler;
      isNewCommunication := true;
      pending := [];
      sent := [];
      log := [];
      history := [];
    }

    /** handleCommunicationMessage: the start marker if the session is new (clearing
        the flag), the command and response lines, and two history entries. */
    method HandleCommunicationMessage(command: CommandText, response: ResponseApdu)
      requires Valid()
      modifies this`isNewCommunication, this`log, this`history
      ensures Valid() && !isNewCommunication
      ensures log == old(log) + ExchangeLog(old(isNewCommunication), command, response)
      ensures history == old(history) + ExchangeHistory(command, response)
    {
      ExchangeKeepsSession(log, isNewCommunication, command, response);
      ghost var expected := log + ExchangeLog(isNewCommunication, command, response);
      if isNewCommunication {
        log := log + [CommunicationStarted];
        isNewCommunication := false;
      }
      log := log + [CommandLine(command)];
      log := log + [ResponseLine(response)];
      assert log == expected;
      history := history + [CommandEntry(command)];
      history := history + [ResponseEntry(response)];
    }

    /** processCommandApdu: a null command, or one too short or of odd length, is answered
        synchronously with "command aborted" and logged; a valid one returns null at once
        after starting exactly one worker, and nothing is logged yet. */
    method ProcessCommandApdu(command: Option<CommandApdu>) returns (r: Option<ResponseApdu>)
      requires Valid()
      modifies this`isNewCommunication, this`log, this`history, this`pending, handler`selectedInsDescription
      ensures Valid()
      ensures command.None? ==>
                && r == Some(FromHex(handler.protocol.swCommandAborted))
                && handler.selectedInsDescription == old(handler.selectedInsDescription)
                && pending == old(pending)
                && log == old(log) + ExchangeLog(old(isNewCommunication), NullCommand, r.value)
                && history == old(history) + ExchangeHistory(NullCommand, r.value)
      ensures command.Some? && !ValidFrame(handler.protocol, command.value.hex) ==>
                && r == Some(FromHex(handler.protocol.swCommandAborted))
                && handler.selectedInsDescription == Some(CommandAbortedWithReason)
                && pending == old(pending)
                && log == old(log) + ExchangeLog(old(isNewCommunication), HexText(command.value.hex), r.value)
                && history == old(history) + ExchangeHistory(HexText(command.value.hex), r.value)
      ensures command.Some? && ValidFrame(handler.protocol, command.value.hex) ==>
                && r == None
                && pending == old(pending) + [handler.GetResponse(command)]
                && handler.selectedInsDescription == old(handler.selectedInsDescription)
                && isNewCommunication == old(isNewCommunication)
                && log == old(log) && history == old(history)
    {
      var response: ResponseApdu;
      if command.Some? {
        var hex := command.value.hex;
        if |hex| < handler.protocol.minApduLength || |hex| % 2 != 0 {
          response := FromHex(handler.protocol.swCommandAborted);
          handler.selectedInsDescription := Some(CommandAbortedWithReason);
        } else {
          pending := pending + [handler.GetResponse(command)];
          return None;
        }
      } else {
        response := FromHex(handler.protocol.swCommandAborted);
      }
      HandleCommunicationMessage(TextOf(command), response);
      r := Some(response);
    }

    /** A worker runs to completion: it resolves its command, then its continuation sends
        the response and logs the exchange. */
    method Complete(k: nat) returns (response: ResponseApdu)
      requires Valid() && k < |pending|
      requires pending[k].NetworkTask? ==> handler.network.CanReceive()
      modifies this`pending, this`sent, this`isNewCommunication, this`log, this`history
      modifies handler`selectedInsDescription, handler.network`output, handler.network`input
      ensures Valid()
      ensures pending == old(pending[..k] + pending[k + 1..])
      ensures sent == old(sent) + [response]
      ensures log == old(log) + ExchangeLog(old(isNewCommunication), TextOf(old(pending[k]).command), response)
      ensures history == old(history) + ExchangeHistory(TextOf(old(pending[k]).command), response)
      ensures old(pending[k]).FileHandlerTask? ==>
                && response == FromHex(Resolve(handler.protocol, handler.table, HexOf(old(pending[k]).command)).response)
                && handler.selectedInsDescription
                   == ApplyLabel(old(handler.selectedInsDescription),
                                 Resolve(handler.protocol, handler.table, HexOf(old(pending[k]).command)).labelUpdate)
                && handler.network.output == old(handler.network.output)
                && handler.network.input == old(handler.network.input)
      ensures old(pending[k]).NetworkTask? ==>
                && response == (if handler.network.Live() then Raw(FramePayload(old(handler.network.input))) else Absent)
                && handler.selectedInsDescription == old(handler.selectedInsDescription)
                && handler.network.output
                   == (if handler.network.Live() && old(pending[k]).command.Some?
                       then old(handler.network.output) + Frame(old(pending[k]).command.value.bytes)
                       else old(handler.network.output))
                && handler.network.input
                   == (if handler.network.Live() then FrameRest(old(handler.network.input)) else old(handler.network.input))
    {
      var task := pending[k];
      pending := pending[..k] + pending[k + 1..];
      response := handler.Run(task);
      sent := sent + [response];
      HandleCommunicationMessage(TextOf(task.command), response);
    }

    /** onDeactivated: for either reason, log the end of the communication and mark the
        next exchange as the first of a new session. */
    method OnDeactivated(reason: int)
      requires Valid()
      modifies this`isNewCommunication, this`log
      ensures Valid() && isNewCommunication
      ensures log == old(log) + [CommunicationEnded]
    {
      DeactivationKeepsSession(log, isNewCommunication);
      log := log + [CommunicationEnded];
      isNewCommunication := true;
    }
  }

  /** A SELECT exchange end to end, from the NFC callback to the delivered answer. */
  method FirstSelectExchange(p: Protocol, hex: Hex) returns (service: HostCardEmulatorService)
    requires WellFormed(p) && p.insSelect == "A4" && p.minApduLength <= 24
    requires hex == "00A4040007A0000002471001"
    ensures fresh(service) && fresh(service.handler) && fresh(service.handler.network) && service.Valid()
    ensures !service.handler.isUsingNetwork && service.handler.protocol == p
    ensures service.handler.table == Table([hex], ["9000"])
    ensures service.pending == [] && service.sent == [FromHex("9000")]
    ensures service.log == [CommunicationStarted, CommandLine(HexText(hex)), ResponseLine(FromHex("9000"))]
  {
    var handler := new ResponseHandler(p, Table([hex], ["9000"]));
    service := new HostCardEmulatorService(handler);
    var command := Some(CommandApdu([], hex));
    assert ValidFrame(p, hex);
    var r := service.ProcessCommandApdu(command);
    assert r == None && service.pending == [FileHandlerTask(command)];
    SelectScenario(p);
    var answer := service.Complete(0);
    assert answer == FromHex("9000");
  }

  /** After the first SELECT exchange, a deactivation and a second exchange that opens a
      new session. */
  method SelectExchangeScenario(p: Protocol)
    requires WellFormed(p) && p.insSelect == "A4" && p.minApduLength <= 24
  {
    var hex := "00A4040007A0000002471001";
    var service := FirstSelectExchange(p, hex);
    var command := Some(CommandApdu([], hex));
    service.OnDeactivated(0);
    assert ValidFrame(p, hex);
    var r := service.ProcessCommandApdu(command);
    SelectScenario(p);
    var answer := service.Complete(0);
    assert service.log[4] == CommunicationStarted;
    assert service.sent == [FromHex("9000"), FromHex("9000")];
  }
}
