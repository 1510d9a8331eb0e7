/**
 * `IOProcessor`, the line-based input and output of the JavaScript player
 * wrappers (the ES6 class and the prototype-based copy do the same). Input
 * is read in blocks up to a line break and kept in a buffer that `readline`
 * cuts at its first line break. The blocking read of standard input is
 * given to `Readline` as the text it would return.
 */
module IO {
  import opened JavaText

  /**
   * A line cut from the front of a buffer: everything up to and including
   * the first '\n', or nothing when the buffer holds no '\n'.
   */
  datatype Cut = Cut(line: string, rest: string)

  /** `search('\n') + 1`, then the two slices. */
  function CutLine(buffer: string): (r: Cut)
    ensures r.line + r.rest == buffer
    ensures '\n' !in buffer ==> r.line == "" && r.rest == buffer
    ensures '\n' in buffer ==>
      && |r.line| > 0 && r.line[|r.line| - 1] == '\n'
      && '\n' !in r.line[..|r.line| - 1]
  {
    var newline := IndexOf(buffer, '\n') + 1;
    assert buffer[..newline] + buffer[newline..] == buffer;
    Cut(buffer[..newline], buffer[newline..])
  }

  /** A line written by `writeln` is read back whole by `readline`, with whatever follows left over. */
  lemma CutWrittenLine(message: string, rest: string)
    requires '\n' !in message
    ensures CutLine(message + "\n" + rest) == Cut(message + "\n", rest)
  {
    var buffer := message + "\n" + rest;
    assert buffer[|message|] == '\n';
    assert forall j :: 0 <= j < |message| ==> buffer[j] == message[j];
    assert IndexOf(buffer, '\n') == |message|;
    assert buffer[..|message| + 1] == message + "\n";
  }

  class IOProcessor {
    /** `input_text`: what was read and not yet returned. */
    var inputText: string
    /** What `writeln` has written to standard output. */
    var written: string

    /** A new processor has an empty buffer. */
    constructor ()
      ensures inputText == "" && written == ""
    {
      inputText := "";
      written := "";
    }

    /**
     * `readline`: refills the buffer from standard input only when it is
     * empty (`read` is what `readUntilByte` returns then), and cuts the next
     * line from it. `refilled` tells whether standard input was read.
     */
    method Readline(read: string) returns (line: string, refilled: bool)
      modifies this
      ensures refilled <==> old(inputText) == ""
      ensures var buffer := if refilled then read else old(inputText);
        Cut(line, inputText) == CutLine(buffer)
      ensures written == old(written)
    {
      refilled := |inputText| == 0;
      if refilled {
        inputText := read;
      }
      var newline := IndexOf(inputText, '\n') + 1;
      line := inputText[..newline];
      inputText := inputText[newline..];
    }

    /** `writeln`: the message, then exactly one '\n'. */
    method Writeln(message: string)
      modifies this
      ensures written == old(written) + message + "\n"
      ensures inputText == old(inputText)
    {
      written := written + message;
      written := written + "\n";
    }
  }

  /** The lines `readline` gives, one after another, from a buffer that is not refilled. */
  function CutAll(buffer: string): (r: seq<string>)
    decreases |buffer|
  {
    var c := CutLine(buffer);
    if c.line == "" then [] else [c.line] + CutAll(c.rest)
  }

  lemma CutAllWritten(message: string, rest: string)
    requires '\n' !in message
    ensures CutAll(message + "\n" + rest) == [message + "\n"] + CutAll(rest)
  {
    CutWrittenLine(message, rest);
  }

  /**
   * What a sequence of `writeln` calls writes, when no message holds a
   * '\n', is read back by `readline` message by message, each with its
   * '\n', and nothing is left over.
   */
  lemma {:induction false} ReadBackWritten(messages: seq<string>)
    requires forall k :: 0 <= k < |messages| ==> '\n' !in messages[k]
    ensures |CutAll(Terminated(messages))| == |messages|
    ensures forall k :: 0 <= k < |messages| ==> CutAll(Terminated(messages))[k] == messages[k] + "\n"
    decreases |messages|
  {
    if |messages| > 0 {
      var rest := Terminated(messages[1..]);
      var b := Terminated(messages);
      assert b == messages[0] + "\n" + rest;
      CutAllWritten(messages[0], rest);
      ReadBackWritten(messages[1..]);
      forall k | 0 <= k < |messages|
        ensures CutAll(b)[k] == messages[k] + "\n"
      {
        if k > 0 {
          assert CutAll(b)[k] == CutAll(rest)[k - 1];
          assert messages[1..][k - 1] == messages[k];
        }
      }
    }
  }

  /** `writeln` appends one terminated line: a run of calls writes `Terminated` of the messages. */
  lemma WritelnRun(before: string, messages: seq<string>, message: string)
    ensures before + Terminated(messages) + message + "\n" == before + Terminated(messages + [message])
  {
    TerminatedSnoc(messages, message);
  }
}
