/**
 * The overwriting status line (internal/pkg/terminal/terminal.go): each
 * message is written after a carriage return and right-padded with spaces
 * to the previous message's length, so that it blanks what was there.
 */
module Terminal {
  import GoStrings

  function Spaces(n: nat): (r: string)
    ensures |r| == n && forall k | 0 <= k < n :: r[k] == ' '
  {
    if n == 0 then "" else Spaces(n - 1) + " "
  }

  /** fmt's `%-*s`: left-justify in a field `width` runes wide; a longer text is not cut */
  function PadRight(s: string, width: nat): (r: string)
    ensures |r| == if |s| >= width then |s| else width
    ensures r[..|s|] == s
    ensures forall k | |s| <= k < |r| :: r[k] == ' '
  {
    if |s| >= width then s else s + Spaces(width - |s|)
  }

  /** What Printf writes to the terminal, given the previous length */
  function StatusLine(lastMessageLength: nat, message: string): string {
    "\r" + PadRight(message, lastMessageLength)
  }

  /** UpdatingStatusWriter */
  class UpdatingStatusWriter {
    /** len() of the last message: its length in UTF-8 bytes */
    var lastMessageLength: nat

    constructor ()
      ensures lastMessageLength == 0
    {
      lastMessageLength := 0;
    }

    /**
     * Printf, with the message already formatted; returns what is written
     * to standard output.
     */
    method Printf(currentMessage: string) returns (written: string)
      modifies this
      ensures written == StatusLine(old(lastMessageLength), currentMessage)
      ensures lastMessageLength == |GoStrings.Utf8(currentMessage)|
    {
      written := "\r" + PadRight(currentMessage, lastMessageLength);
      lastMessageLength := |GoStrings.Utf8(currentMessage)|;
    }
  }

  /**
   * Every line starts with a carriage return and then the message, and
   * every position up to the previous length holds either the message or
   * a space: nothing of the previous message is left visible.
   */
  lemma {:induction false} StatusLineBlanks(lastMessageLength: nat, message: string)
    ensures var line := StatusLine(lastMessageLength, message);
            && line[0] == '\r'
            && line[1..|message| + 1] == message
            && |line| - 1 >= lastMessageLength
            && (forall k | |message| < k < |line| :: line[k] == ' ')
            && (|message| >= lastMessageLength ==> line == "\r" + message)
  {
    var p := PadRight(message, lastMessageLength);
    var line := StatusLine(lastMessageLength, message);
    assert line[1..] == p;
    assert line[1..|message| + 1] == p[..|message|];
  }

  /**
   * Because lengths are counted in bytes while padding counts runes, the
   * padding covers at least the runes of the previous message.
   */
  lemma {:induction false} PaddingCoversPreviousMessage(previous: string, message: string)
    ensures |StatusLine(|GoStrings.Utf8(previous)|, message)| - 1 >= |previous|
  {
  }

  /** Two messages on a fresh writer: the first is written as is, the second blanks the first. */
  method SuccessiveMessages(first: string, second: string) returns (line1: string, line2: string)
    ensures line1 == "\r" + first
    ensures |line2| - 1 >= |first| && |line2| > |second| && line2[1..|second| + 1] == second
  {
    var w := new UpdatingStatusWriter();
    line1 := w.Printf(first);
    StatusLineBlanks(0, first);
    line2 := w.Printf(second);
    StatusLineBlanks(|GoStrings.Utf8(first)|, second);
  }
}
