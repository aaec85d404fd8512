/** The local resolver of ResponseHandler as a function of the protocol constants, the
    table and the command: validation, the switch on INS and the ten lookup cases. */
module Resolution {
  import opened Apdu
  import opened LookupTable

  /** The advisory label ResponseHandler.selectedInsDescription holds. The labels are
      string resources in the source; here they are opaque tokens. */
  datatype Label = CommandAbortedWithReason | InsLabel(ins: Ins)

  /** What one resolution does to the label: leave it or overwrite it. */
  datatype LabelUpdate = Keep | SetTo(newLabel: Label)

  function ApplyLabel(current: Option<Label>, u: LabelUpdate): Option<Label>
  {
    match u
    case Keep => current
    case SetTo(l) => Some(l)
  }

  datatype Resolution = Resolution(response: Hex, labelUpdate: LabelUpdate)

  /** The instructions whose case compares the whole command with each entry. */
  const WholeCommandInstructions: set<Ins> := {Select, GetProcessingOptions, ReadRecord}

  function MatchKindOf(ins: Ins): MatchKind
  {
    if ins in WholeCommandInstructions then WholeCommand else SameIns
  }

  /** The status word a case answers with when no entry matches. */
  function MissDefault(p: Protocol, ins: Ins): Hex
  {
    match ins
    case Select => p.swFileNotFound
    case ReadBinary => p.swRecordNotFound
    case ReadRecord => p.swRecordNotFound
    case _ => p.swCommandAborted
  }

  /** A whole-command case looks for the command itself; the others for their INS constant. */
  function CaseKey(p: Protocol, ins: Ins, hex: Hex): Hex
  {
    if MatchKindOf(ins) == WholeCommand then hex else Code(p, ins)
  }

  /** The response of the case method for `ins` (selectCase ... getDataCase). */
  function CaseResponse(p: Protocol, t: Table, ins: Ins, hex: Hex): Hex
    requires t.Valid()
  {
    Answer(t, MatchKindOf(ins), CaseKey(p, ins, hex), MissDefault(p, ins))
  }

  /** The body of the Runnable built by getFileHandlerResponse, up to the continuation:
      the response it passes on and what it does to the label. */
  function Resolve(p: Protocol, t: Table, command: Option<Hex>): (r: Resolution)
    requires WellFormed(p) && t.Valid()
    ensures r.response in t.responses
            || r.response in {p.swCommandAborted, p.swFileNotFound, p.swRecordNotFound, p.swInsNotSupportedOrInvalid}
    ensures r.labelUpdate.SetTo? ==> command.Some?
    ensures r.labelUpdate == SetTo(CommandAbortedWithReason) <==> command.Some? && !ValidFrame(p, command.value)
  {
    match command
    case None => Resolution(p.swCommandAborted, Keep)
    case Some(hex) =>
      if !ValidFrame(p, hex) then Resolution(p.swCommandAborted, SetTo(CommandAbortedWithReason))
      else
        match Classify(p, hex[2..4])
        case None => Resolution(p.swInsNotSupportedOrInvalid, Keep)
        case Some(ins) => Resolution(CaseResponse(p, t, ins, hex), SetTo(InsLabel(ins)))
  }

  /** An absent command, or one that is too short or of odd length, is answered with
      "command aborted" without consulting the table: any two tables give the same
      resolution. Only the framing failure overwrites the label. */
  lemma RejectedCommandsAborted(p: Protocol, t1: Table, t2: Table, command: Option<Hex>)
    requires WellFormed(p) && t1.Valid() && t2.Valid()
    requires command.None? || !ValidFrame(p, command.value)
    ensures Resolve(p, t1, command) == Resolve(p, t2, command)
    ensures Resolve(p, t1, command).response == p.swCommandAborted
    ensures Resolve(p, t1, command).labelUpdate
            == if command.None? then Keep else SetTo(CommandAbortedWithReason)
  {
  }

  /** A valid command whose INS digits are none of the ten codes is answered with
      "instruction not supported", independently of the table, and the label is kept. */
  lemma UnsupportedInsRejected(p: Protocol, t1: Table, t2: Table, hex: Hex)
    requires WellFormed(p) && t1.Valid() && t2.Valid()
    requires ValidFrame(p, hex)
    requires forall ins :: Code(p, ins) != hex[2..4]
    ensures Resolve(p, t1, Some(hex)) == Resolve(p, t2, Some(hex))
    ensures Resolve(p, t1, Some(hex)) == Resolution(p.swInsNotSupportedOrInvalid, Keep)
  {
  }

  /** SELECT, GET PROCESSING OPTIONS and READ RECORD: the response is the one paired with
      the first entry equal to the whole command; with no such entry it is "file not
      found" for SELECT, "record not found" for READ RECORD and "command aborted" for
      GET PROCESSING OPTIONS. The case's label is set, hit or miss. */
  lemma WholeCommandResolution(p: Protocol, t: Table, hex: Hex, ins: Ins)
    requires WellFormed(p) && t.Valid()
    requires ValidFrame(p, hex) && ins in WholeCommandInstructions && Code(p, ins) == hex[2..4]
    ensures Resolve(p, t, Some(hex)).labelUpdate == SetTo(InsLabel(ins))
    ensures forall i :: 0 <= i < |t.commands| && t.commands[i] == hex
                        && (forall j :: 0 <= j < i ==> t.commands[j] != hex)
                        ==> Resolve(p, t, Some(hex)).response == t.responses[i]
    ensures (forall i :: 0 <= i < |t.commands| ==> t.commands[i] != hex) ==>
              Resolve(p, t, Some(hex)).response
              == if ins == Select then p.swFileNotFound
                 else if ins == ReadRecord then p.swRecordNotFound
                 else p.swCommandAborted
  {
  }

  /** READ BINARY and the six other instructions matched by INS: the response is the one
      paired with the first entry whose INS digits equal the command's; with no such
      entry it is "record not found" for READ BINARY and "command aborted" otherwise. */
  lemma SameInsResolution(p: Protocol, t: Table, hex: Hex, ins: Ins)
    requires WellFormed(p) && t.Valid()
    requires ValidFrame(p, hex) && ins !in WholeCommandInstructions && Code(p, ins) == hex[2..4]
    ensures Resolve(p, t, Some(hex)).labelUpdate == SetTo(InsLabel(ins))
    ensures forall i :: 0 <= i < |t.commands| && t.commands[i][2..4] == hex[2..4]
                        && (forall j :: 0 <= j < i ==> t.commands[j][2..4] != hex[2..4])
                        ==> Resolve(p, t, Some(hex)).response == t.responses[i]
    ensures (forall i :: 0 <= i < |t.commands| ==> t.commands[i][2..4] != hex[2..4]) ==>
              Resolve(p, t, Some(hex)).response
              == if ins == ReadBinary then p.swRecordNotFound else p.swCommandAborted
  {
  }

  /** For the instructions matched by INS the answer depends on the INS byte only, never
      on CLA, P1, P2 or the data. */
  lemma SameInsIgnoresOperands(p: Protocol, t: Table, hex1: Hex, hex2: Hex, ins: Ins)
    requires WellFormed(p) && t.Valid()
    requires ValidFrame(p, hex1) && ValidFrame(p, hex2) && hex1[2..4] == hex2[2..4]
    requires ins !in WholeCommandInstructions && Code(p, ins) == hex1[2..4]
    ensures Resolve(p, t, Some(hex1)) == Resolve(p, t, Some(hex2))
  {
  }

  /** Round trip: resolving a table entry of a whole-command instruction, with no equal
      entry before it, gives back exactly that entry's response. */
  lemma TableEntryRoundTrip(p: Protocol, t: Table, i: nat, ins: Ins)
    requires WellFormed(p) && t.Valid()
    requires i < |t.commands| && ValidFrame(p, t.commands[i])
    requires ins in WholeCommandInstructions && Code(p, ins) == t.commands[i][2..4]
    requires forall j :: 0 <= j < i ==> t.commands[j] != t.commands[i]
    ensures Resolve(p, t, Some(t.commands[i])) == Resolution(t.responses[i], SetTo(InsLabel(ins)))
  {
    WholeCommandResolution(p, t, t.commands[i], ins);
  }

  /** A SELECT table holding one application identifier: the exact command gets the
      entry's status, and a command that differs in its last digits gets "file not found". */
  lemma SelectScenario(p: Protocol)
    requires WellFormed(p) && p.insSelect == "A4" && p.minApduLength <= 24
    ensures Resolve(p, Table(["00A4040007A0000002471001"], ["9000"]), Some("00A4040007A0000002471001"))
            == Resolution("9000", SetTo(InsLabel(Select)))
    ensures Resolve(p, Table(["00A4040007A0000002471001"], ["9000"]), Some("00A4040007A0000002471099"))
            == Resolution(p.swFileNotFound, SetTo(InsLabel(Select)))
  {
    var t := Table(["00A4040007A0000002471001"], ["9000"]);
    assert "00A4040007A0000002471001"[2..4] == ['A', '4'];
    assert "00A4040007A0000002471099"[2..4] == ['A', '4'];
    assert "00A4040007A0000002471099" != "00A4040007A0000002471001";
    WholeCommandResolution(p, t, "00A4040007A0000002471001", Select);
    WholeCommandResolution(p, t, "00A4040007A0000002471099", Select);
  }

  /** A READ BINARY table with one entry answers every valid command with INS B0. */
  lemma ReadBinaryScenario(p: Protocol, hex: Hex)
    requires WellFormed(p) && p.insReadBinary == "B0"
    requires ValidFrame(p, hex) && hex[2..4] == "B0"
    ensures Resolve(p, Table(["00B00000FF"], ["AABB9000"]), Some(hex))
            == Resolution("AABB9000", SetTo(InsLabel(ReadBinary)))
  {
    var t := Table(["00B00000FF"], ["AABB9000"]);
    assert t.commands[0][2..4] == ['B', '0'];
    SameInsResolution(p, t, hex, ReadBinary);
  }
}
