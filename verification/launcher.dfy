/** The command-line program modes (npuzzle_cli/src/launcher.rs). */
module Launcher {
  import opened Wrappers

  datatype PuzzleMode = Play | Solve | Generate

  /** The accepted spellings, in declaration order. */
  function AsStrArray(): (r: seq<string>)
    ensures |r| == 3
    ensures forall i, j :: 0 <= i < j < |r| ==> r[i] != r[j]
    ensures forall s :: s in r <==> FromStr(s).Some?
  {
    ["play", "solve", "generate"]
  }

  /** Parses a mode name; anything other than the three names is `None`. */
  function FromStr(mode: string): (r: Option<PuzzleMode>)
    ensures r.Some? <==> mode in {"play", "solve", "generate"}
  {
    match mode
    case "play" => Some(Play)
    case "solve" => Some(Solve)
    case "generate" => Some(Generate)
    case _ => None
  }

  /** The name of each mode; no mode is ever shown as "unknown". */
  function AsStr(m: PuzzleMode): (r: string)
    ensures r != "unknown"
    ensures r in AsStrArray()
  {
    match m
    case Play => "play"
    case Solve => "solve"
    case Generate => "generate"
  }

  /** Parsing a mode's name gives the mode back. */
  lemma FromStrAsStr(m: PuzzleMode)
    ensures FromStr(AsStr(m)) == Some(m)
  {
  }

  /** Printing a parsed mode gives the parsed text back. */
  lemma AsStrFromStr(s: string)
    requires FromStr(s).Some?
    ensures AsStr(FromStr(s).value) == s
  {
  }

  /** The spelling list is the names of the modes in declaration order. */
  lemma AsStrArrayIsNames()
    ensures AsStrArray() == [AsStr(Play), AsStr(Solve), AsStr(Generate)]
  {
  }
}
