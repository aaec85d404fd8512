/** What HostCardEmulatorService writes to its log and to the communication history, and
    the session discipline of its isNewCommunication flag. Log lines and history entries
    are opaque tokens: their text comes from string resources. */
module Session {
  import opened Apdu

  /** The command as the log shows it: its hex form, or the null-command placeholder. */
  datatype CommandText = HexText(hex: Hex) | NullCommand

  /** A line of the debug log (Utils.showLogDMessage). */
  datatype LogEntry =
    | CommunicationStarted
    | CommunicationEnded
    | CommandLine(command: CommandText)
    | ResponseLine(response: ResponseApdu)

  /** An entry of the communication history (InformationTransferManager). */
  datatype HistoryEntry = CommandEntry(command: CommandText) | ResponseEntry(response: ResponseApdu)

  function TextOf(command: Option<CommandApdu>): CommandText
  {
    match command
    case None => NullCommand
    case Some(c) => HexText(c.hex)
  }

  /** The log lines of one exchange: the start marker only in a new session, then the
      command and the response. */
  function ExchangeLog(isNew: bool, command: CommandText, response: ResponseApdu): seq<LogEntry>
  {
    (if isNew then [CommunicationStarted] else []) + [CommandLine(command), ResponseLine(response)]
  }

  /** The history entries of one exchange: the command, then the response. */
  function ExchangeHistory(command: CommandText, response: ResponseApdu): seq<HistoryEntry>
  {
    [CommandEntry(command), ResponseEntry(response)]
  }

  predicate IsMarker(e: LogEntry)
  {
    e.CommunicationStarted? || e.CommunicationEnded?
  }

  /** The most recent session marker in the log. */
  function LastMarker(log: seq<LogEntry>): (m: Option<LogEntry>)
    ensures m.Some? ==> IsMarker(m.value)
    ensures m.None? ==> forall i :: 0 <= i < |log| ==> !IsMarker(log[i])
    ensures m.Some? ==> exists i :: 0 <= i < |log| && log[i] == m.value
                                    && forall j :: i < j < |log| ==> !IsMarker(log[j])
  {
    if |log| == 0 then None
    else if IsMarker(log[|log| - 1]) then Some(log[|log| - 1])
    else
      var prefix := log[..|log| - 1];
      assert forall i :: 0 <= i < |prefix| ==> prefix[i] == log[i];
      LastMarker(prefix)
  }

  /** Between two start markers there is always an end marker. */
  ghost predicate StartsSeparated(log: seq<LogEntry>)
  {
    forall i, j :: 0 <= i < j < |log| && log[i].CommunicationStarted? && log[j].CommunicationStarted?
      ==> exists k :: i < k < j && log[k].CommunicationEnded?
  }

  /** The flag says "new session" exactly when no session is open in the log. */
  ghost predicate SessionInvariant(log: seq<LogEntry>, isNew: bool)
  {
    StartsSeparated(log) && (isNew <==> LastMarker(log) != Some(CommunicationStarted))
  }

  /** A start marker that is not the last marker is followed by an end marker. */
  lemma {:induction false} EndFollowsClosedStart(log: seq<LogEntry>, i: nat)
    requires i < |log| && log[i].CommunicationStarted?
    requires LastMarker(log) != Some(CommunicationStarted)
    ensures exists k :: i < k < |log| && log[k].CommunicationEnded?
  {
    var n := |log| - 1;
    if !IsMarker(log[n]) {
      var prefix := log[..n];
      assert i < n;
      assert prefix[i] == log[i];
      EndFollowsClosedStart(prefix, i);
      var k :| i < k < n && prefix[k].CommunicationEnded?;
      assert log[k] == prefix[k];
    } else {
      assert log[n].CommunicationEnded?;
    }
  }

  /** Lines that are not markers leave the last marker as it was. */
  lemma LastMarkerPastLines(log: seq<LogEntry>, command: CommandText, response: ResponseApdu)
    ensures LastMarker(log + [CommandLine(command), ResponseLine(response)]) == LastMarker(log)
  {
    var once := log + [CommandLine(command)];
    var twice := log + [CommandLine(command), ResponseLine(response)];
    assert twice[..|twice| - 1] == once;
    assert once[..|once| - 1] == log;
  }

  /** An exchange keeps the session discipline and leaves a session open: the marker is
      written once, on the first exchange of a session, and not by later ones. */
  lemma ExchangeKeepsSession(log: seq<LogEntry>, isNew: bool, command: CommandText, response: ResponseApdu)
    requires SessionInvariant(log, isNew)
    ensures SessionInvariant(log + ExchangeLog(isNew, command, response), false)
  {
    var lines := [CommandLine(command), ResponseLine(response)];
    if isNew {
      var started := log + [CommunicationStarted];
      assert log + ExchangeLog(isNew, command, response) == started + lines;
      LastMarkerPastLines(started, command, response);
      var after := started + lines;
      forall i, j | 0 <= i < j < |after| && after[i].CommunicationStarted? && after[j].CommunicationStarted?
        ensures exists k :: i < k < j && after[k].CommunicationEnded?
      {
        if j < |log| {
          assert log[i] == after[i] && log[j] == after[j];
          var k :| i < k < j && log[k].CommunicationEnded?;
          assert after[k] == log[k];
        } else {
          assert j == |log| && i < |log|;
          assert log[i] == after[i];
          EndFollowsClosedStart(log, i);
          var k :| i < k < |log| && log[k].CommunicationEnded?;
          assert after[k] == log[k];
        }
      }
    } else {
      assert log + ExchangeLog(isNew, command, response) == log + lines;
      LastMarkerPastLines(log, command, response);
      var after := log + lines;
      forall i, j | 0 <= i < j < |after| && after[i].CommunicationStarted? && after[j].CommunicationStarted?
        ensures exists k :: i < k < j && after[k].CommunicationEnded?
      {
        assert j < |log|;
        assert log[i] == after[i] && log[j] == after[j];
        var k :| i < k < j && log[k].CommunicationEnded?;
        assert after[k] == log[k];
      }
    }
  }

  /** Deactivation closes the session, so the next exchange writes the start marker again. */
  lemma DeactivationKeepsSession(log: seq<LogEntry>, isNew: bool)
    requires SessionInvariant(log, isNew)
    ensures SessionInvariant(log + [CommunicationEnded], true)
  {
    var after := log + [CommunicationEnded];
    forall i, j | 0 <= i < j < |after| && after[i].CommunicationStarted? && after[j].CommunicationStarted?
      ensures exists k :: i < k < j && after[k].CommunicationEnded?
    {
      assert j < |log|;
      assert log[i] == after[i] && log[j] == after[j];
      var k :| i < k < j && log[k].CommunicationEnded?;
      assert after[k] == log[k];
    }
  }
}
