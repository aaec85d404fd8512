/** The command/response table of FileHandler and its first-match search. */
module LookupTable {
  import opened Apdu

  /** Every entry is long enough to have INS digits (positions 2 and 3). */
  predicate HasInsDigits(commands: seq<Hex>)
  {
    forall i :: 0 <= i < |commands| ==> |commands[i]| >= 4
  }

  /** FileHandler.commands and FileHandler.responses: two parallel lists in definition
      order. The table is loaded elsewhere and only read here. */
  datatype Table = Table(commands: seq<Hex>, responses: seq<Hex>) {
    predicate Valid()
    {
      |commands| == |responses| && HasInsDigits(commands)
    }
  }

  /** The two ways a case compares a table entry with its key: the whole command, or only
      the INS digits of the entry against the case's INS constant. */
  datatype MatchKind = WholeCommand | SameIns

  predicate Matches(kind: MatchKind, entry: Hex, key: Hex)
    requires kind == SameIns ==> |entry| >= 4
  {
    match kind
    case WholeCommand => entry == key
    case SameIns => entry[2..4] == key
  }

  /** The index of the first entry that matches, or |commands| when none does. */
  function FirstMatch(commands: seq<Hex>, kind: MatchKind, key: Hex): (i: nat)
    requires kind == SameIns ==> HasInsDigits(commands)
    ensures i <= |commands|
    ensures i < |commands| ==> Matches(kind, commands[i], key)
    ensures forall j :: 0 <= j < i ==> !Matches(kind, commands[j], key)
  {
    if |commands| == 0 then 0
    else if Matches(kind, commands[0], key) then 0
    else
      var rest := commands[1..];
      var i := FirstMatch(rest, kind, key);
      assert forall j :: 1 <= j < 1 + i ==> commands[j] == rest[j - 1];
      1 + i
  }

  /** The answer of one case: the response paired with the first matching entry, or the
      case's default on a miss. */
  function Answer(t: Table, kind: MatchKind, key: Hex, default: Hex): Hex
    requires t.Valid()
  {
    var i := FirstMatch(t.commands, kind, key);
    if i < |t.commands| then t.responses[i] else default
  }

  /** First match wins: whatever entry is the first to match gives the answer. */
  lemma AnswerAtFirstMatch(t: Table, kind: MatchKind, key: Hex, default: Hex, i: nat)
    requires t.Valid()
    requires i < |t.commands| && Matches(kind, t.commands[i], key)
    requires forall j :: 0 <= j < i ==> !Matches(kind, t.commands[j], key)
    ensures Answer(t, kind, key, default) == t.responses[i]
  {
  }

  /** With no matching entry the answer is the default. */
  lemma AnswerOnMiss(t: Table, kind: MatchKind, key: Hex, default: Hex)
    requires t.Valid()
    requires forall j :: 0 <= j < |t.commands| ==> !Matches(kind, t.commands[j], key)
    ensures Answer(t, kind, key, default) == default
  {
  }
}
