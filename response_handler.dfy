/** ResponseHandler: chooses between the local table and the relay and builds the unit of
    work that produces a response. Its static fields become the fields of one shared
    object; FileHandler's lists and ISOProtocol's constants are fixed when it is made. */
module Handler {
  import opened Apdu
  import opened LookupTable
  import opened Resolution
  import opened Framing
  import opened Network

  /** The Runnable getResponse returns, as a value: the path it takes and the command it
      carries. Running it is a separate step (ResponseHandler.Run). */
  datatype Task = FileHandlerTask(command: Option<CommandApdu>) | NetworkTask(command: Option<CommandApdu>)

  function HexOf(command: Option<CommandApdu>): Option<Hex>
  {
    match command
    case None => None
    case Some(c) => Some(c.hex)
  }

  class ResponseHandler {
    const protocol: Protocol
    const table: Table
    const network: NetworkService
    /** selectedInsDescription; null until the first assignment. */
    var selectedInsDescription: Option<Label>
    var isUsingNetwork: bool

    ghost predicate Valid()
      reads this, network
    {
      WellFormed(protocol) && table.Valid() && network.Valid()
    }

    constructor (protocol: Protocol, table: Table)
      requires WellFormed(protocol) && table.Valid()
      ensures Valid() && this.protocol == protocol && this.table == table && fresh(network)
      ensures selectedInsDescription == None && !isUsingNetwork
      ensures !network.running && network.openers == 0 && network.closers == 0
      ensures network.input == [] && network.output == []
    {
      this.protocol := protocol;
      this.table := table;
      network := new NetworkService();
      selectedInsDescription := None;
      isUsingNetwork := false;
    }

    /** The loop of every case method: scan the entries in order, take the response of the
        first one that matches and stop; keep the default when none matches. */
    method FindResponse(kind: MatchKind, key: Hex, default: Hex) returns (response: Hex)
      requires table.Valid()
      ensures response == Answer(table, kind, key, default)
    {
      response := default;
      var i := 0;
      while i < |table.commands|
        invariant 0 <= i <= |table.commands|
        invariant forall j :: 0 <= j < i ==> !Matches(kind, table.commands[j], key)
      {
        if Matches(kind, table.commands[i], key) {
          response := table.responses[i];
          break;
        }
        i := i + 1;
      }
    }

    /** The case method of one instruction: set its label, then look the command up with
        the case's matching rule and miss default. */
    method RunCase(ins: Ins, hex: Hex) returns (response: Hex)
      requires table.Valid()
      modifies this`selectedInsDescription
      ensures selectedInsDescription == Some(InsLabel(ins))
      ensures response == CaseResponse(protocol, table, ins, hex)
    {
      selectedInsDescription := Some(InsLabel(ins));
      response := FindResponse(MatchKindOf(ins), CaseKey(protocol, ins, hex), MissDefault(protocol, ins));
    }

    /** The work of the Runnable from getFileHandlerResponse, up to the continuation: it
        validates the command again and dispatches on its INS digits. */
    method FileHandlerResponse(command: Option<Hex>) returns (response: Hex)
      requires WellFormed(protocol) && table.Valid()
      modifies this`selectedInsDescription
      ensures response == Resolve(protocol, table, command).response
      ensures selectedInsDescription
              == ApplyLabel(old(selectedInsDescription), Resolve(protocol, table, command).labelUpdate)
    {
      if command.Some? {
        var hex := command.value;
        if |hex| < protocol.minApduLength || |hex| % 2 != 0 {
          response := protocol.swCommandAborted;
          selectedInsDescription := Some(CommandAbortedWithReason);
        } else {
          var ins := Classify(protocol, hex[2..4]);
          if ins.Some? {
            response := RunCase(ins.value, hex);
          } else {
            response := protocol.swInsNotSupportedOrInvalid;
          }
        }
      } else {
        response := protocol.swCommandAborted;
      }
    }

    /** The work of the Runnable from getNetworkResponse: send the command, then wait for
        the answer. A null command makes sendCommand fail before writing anything. */
    method NetworkResponse(command: Option<CommandApdu>) returns (response: ResponseApdu)
      requires network.Valid() && network.CanReceive()
      modifies network`output, network`input
      ensures network.Valid()
      ensures network.output
              == if network.Live() && command.Some? then old(network.output) + Frame(command.value.bytes)
                 else old(network.output)
      ensures response == if network.Live() then Raw(FramePayload(old(network.input))) else Absent
      ensures network.input == if network.Live() then FrameRest(old(network.input)) else old(network.input)
    {
      if command.Some? {
        var sent := network.SendCommand(command.value.bytes);
      }
      var answer := network.WaitForResponse();
      response := if answer == null then Absent else Raw(answer[..]);
    }

    /** getResponse: the unit of work for the mode in force when it is built. */
    function GetResponse(command: Option<CommandApdu>): (task: Task)
      reads this
      ensures task.command == command
      ensures task.NetworkTask? <==> isUsingNetwork
    {
      if isUsingNetwork then NetworkTask(command) else FileHandlerTask(command)
    }

    /** Running a unit of work: the response it hands to its continuation. */
    method Run(task: Task) returns (response: ResponseApdu)
      requires Valid()
      requires task.NetworkTask? ==> network.CanReceive()
      modifies this`selectedInsDescription, network`output, network`input
      ensures Valid()
      ensures task.FileHandlerTask? ==>
                && response == FromHex(Resolve(protocol, table, HexOf(task.command)).response)
                && selectedInsDescription
                   == ApplyLabel(old(selectedInsDescription), Resolve(protocol, table, HexOf(task.command)).labelUpdate)
                && network.output == old(network.output) && network.input == old(network.input)
      ensures task.NetworkTask? ==>
                && selectedInsDescription == old(selectedInsDescription)
                && network.output
                   == (if network.Live() && task.command.Some? then old(network.output) + Frame(task.command.value.bytes)
                       else old(network.output))
                && response == (if network.Live() then Raw(FramePayload(old(network.input))) else Absent)
                && network.input == (if network.Live() then FrameRest(old(network.input)) else old(network.input))
    {
      match task
      case FileHandlerTask(command) =>
        var hex := FileHandlerResponse(HexOf(command));
        response := FromHex(hex);
      case NetworkTask(command) =>
        response := NetworkResponse(command);
    }

    /** setUsingNetwork: record the mode, then connect when switching to the relay and
        disconnect when switching to the table. */
    method SetUsingNetwork(b: bool)
      requires Valid()
      modifies this`isUsingNetwork, network`openers, network`closers
      ensures Valid() && isUsingNetwork == b
      ensures network.openers == old(network.openers) + (if b && !network.running then 1 else 0)
      ensures network.closers == old(network.closers) + (if !b && network.running then 1 else 0)
    {
      isUsingNetwork := b;
      if b {
        var connected := network.Connect();
      } else {
        var disconnected := network.Disconnect();
      }
    }
  }
}
