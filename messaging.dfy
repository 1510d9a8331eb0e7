/**
 * The messages players send (package `base.messaging`): a `Command` is a
 * name with positional arguments read through typed accessors that check the
 * index and parse, and a `PlayerAction` is an optional command plus an
 * append-only log of debugging messages.
 */
module Messaging {
  import opened Wrappers
  import opened JavaText
  import opened Exceptions
  import MovieModels

  /**
   * One element of the `Object[]` of arguments: null, a `String`, or any
   * other object, kept as the text its `toString` gives.
   */
  datatype Arg = Null | Text(s: string) | Boxed(form: string)

  /** `String.valueOf(arg)`. */
  function Form(a: Arg): string
  {
    match a
    case Null => "null"
    case Text(s) => s
    case Boxed(form) => form
  }

  /** "Argument %d of command %s in not defined." */
  function NotDefined(arg: int, name: string): BuilderException
  {
    BuilderException(Some("Argument " + IntToString(arg) + " of command " + name + " in not defined."))
  }

  /** "Argument %d of command %s in not " followed by the expected type. */
  function NotA(arg: int, name: string, kind: string): BuilderException
  {
    BuilderException(Some("Argument " + IntToString(arg) + " of command " + name + " in not " + kind + "."))
  }

  /**
   * How an accessor fails: with the `BuilderException` it declares, or, for
   * a negative index, which its length check lets through, with the
   * `ArrayIndexOutOfBoundsException` of `args[arg]`, which nothing catches.
   */
  datatype AccessFault = Declared(e: BuilderException) | IndexOutOfBounds(index: int)

  /**
   * `Command`. Its setters only replace a field, so a command is kept as a
   * value and a changed command is a new value.
   */
  datatype Command = Command(name: string, args: seq<Arg>)
  {
    /** `getAsString`: the string form of the argument; only a missing argument fails. */
    function GetAsString(arg: int): (r: Result<string, AccessFault>)
      ensures r.Failure? <==> arg < 0 || arg >= |args|
      ensures arg < 0 ==> r == Failure(IndexOutOfBounds(arg))
      ensures arg >= |args| ==> r == Failure(Declared(NotDefined(arg, name)))
      ensures r.Success? ==> r.value == Form(args[arg])
    {
      if |args| <= arg then Failure(Declared(NotDefined(arg, name)))
      else if arg < 0 then Failure(IndexOutOfBounds(arg))
      else Success(Form(args[arg]))
    }

    /** `getAsInt`: `Integer.parseInt` of the string form. */
    function GetAsInt(arg: int): (r: Result<Int32, AccessFault>)
      ensures arg < 0 ==> r == Failure(IndexOutOfBounds(arg))
      ensures arg >= |args| ==> r == Failure(Declared(NotDefined(arg, name)))
      ensures 0 <= arg < |args| ==>
        r == match ParseInt(Form(args[arg]))
             case Some(n) => Success(n)
             case None => Failure(Declared(NotA(arg, name, "an int")))
    {
      if |args| <= arg then Failure(Declared(NotDefined(arg, name)))
      else if arg < 0 then Failure(IndexOutOfBounds(arg))
      else
        match ParseInt(Form(args[arg]))
        case Some(n) => Success(n)
        case None => Failure(Declared(NotA(arg, name, "an int")))
    }

    /** `getAsBoolean`: `Boolean.parseBoolean` of the string form, which never fails. */
    function GetAsBoolean(arg: int): (r: Result<bool, AccessFault>)
      ensures r.Failure? <==> arg < 0 || arg >= |args|
      ensures arg < 0 ==> r == Failure(IndexOutOfBounds(arg))
      ensures arg >= |args| ==> r == Failure(Declared(NotDefined(arg, name)))
      ensures r.Success? ==> (r.value <==> EqualsIgnoreCase(Form(args[arg]), "true"))
    {
      if |args| <= arg then Failure(Declared(NotDefined(arg, name)))
      else if arg < 0 then Failure(IndexOutOfBounds(arg))
      else Success(EqualsIgnoreCase(Form(args[arg]), "true"))
    }

    /**
     * `getAsFloat` (and `getAsDouble`, the same with "a double"): only the
     * index check and the error routing; the float parse of the string form
     * is given as `parsed`.
     */
    function GetAsFloat(arg: int, parsed: Option<MovieModels.Double>): (r: Result<MovieModels.Double, AccessFault>)
      ensures arg < 0 ==> r == Failure(IndexOutOfBounds(arg))
      ensures arg >= |args| ==> r == Failure(Declared(NotDefined(arg, name)))
      ensures 0 <= arg < |args| && parsed.None? ==> r == Failure(Declared(NotA(arg, name, "a float")))
      ensures 0 <= arg < |args| && parsed.Some? ==> r == Success(parsed.value)
    {
      if |args| <= arg then Failure(Declared(NotDefined(arg, name)))
      else if arg < 0 then Failure(IndexOutOfBounds(arg))
      else
        match parsed
        case Some(d) => Success(d)
        case None => Failure(Declared(NotA(arg, name, "a float")))
    }
  }

  /**
   * Every accessor rejects the same indices the same way: past the end with
   * its "not defined" exception, below zero with the uncaught index error.
   */
  lemma AccessorsShareIndexCheck(c: Command, arg: int, parsed: Option<MovieModels.Double>)
    ensures c.GetAsString(arg).Failure? <==> arg < 0 || arg >= |c.args|
    ensures arg >= |c.args| ==>
      && c.GetAsString(arg) == Failure(Declared(NotDefined(arg, c.name)))
      && c.GetAsInt(arg) == Failure(Declared(NotDefined(arg, c.name)))
      && c.GetAsBoolean(arg) == Failure(Declared(NotDefined(arg, c.name)))
      && c.GetAsFloat(arg, parsed) == Failure(Declared(NotDefined(arg, c.name)))
    ensures arg < 0 ==>
      && c.GetAsString(arg) == Failure(IndexOutOfBounds(arg))
      && c.GetAsInt(arg) == Failure(IndexOutOfBounds(arg))
      && c.GetAsBoolean(arg) == Failure(IndexOutOfBounds(arg))
      && c.GetAsFloat(arg, parsed) == Failure(IndexOutOfBounds(arg))
  {
  }

  /** An `Integer` argument reads back as the same int, and so does its decimal text. */
  lemma GetAsIntRoundTrip(c: Command, arg: int, n: Int32)
    requires 0 <= arg < |c.args|
    requires c.args[arg] == Boxed(IntToString(n)) || c.args[arg] == Text(IntToString(n))
    ensures c.GetAsInt(arg) == Success(n)
  {
    ParseIntOfIntToString(n);
  }

  /** An in-range argument that is not a decimal int is reported as such. */
  lemma GetAsIntRejects(c: Command, arg: int)
    requires 0 <= arg < |c.args| && ParseInt(Form(c.args[arg])).None?
    ensures c.GetAsInt(arg) == Failure(Declared(NotA(arg, c.name, "an int")))
  {
  }

  /** A `Boolean` argument reads back as the same value; null and any other text read as false. */
  lemma GetAsBooleanRoundTrip(c: Command, arg: int, b: bool)
    requires 0 <= arg < |c.args|
    ensures c.args[arg] == Boxed(if b then "true" else "false") ==> c.GetAsBoolean(arg) == Success(b)
    ensures c.args[arg] == Null ==> c.GetAsBoolean(arg) == Success(false)
    ensures c.args[arg] == Text("TRUE") ==> c.GetAsBoolean(arg) == Success(true)
  {
    assert !EqualsIgnoreCase("null", "true") by {
      assert ToLowerAscii("null"[0]) != ToLowerAscii("true"[0]);
    }
  }

  /** `Arrays.toString` of the arguments: their string forms, comma-and-space separated, in brackets. */
  function ArgsText(args: seq<Arg>): string
  {
    "[" + ArgsList(args) + "]"
  }

  function ArgsList(args: seq<Arg>): string
    decreases |args|
  {
    if |args| == 0 then ""
    else if |args| == 1 then Form(args[0])
    else Form(args[0]) + ", " + ArgsList(args[1..])
  }

  /** `Command.toString`. */
  function CommandText(c: Command): string
  {
    "Command [name=" + c.name + ", args=" + ArgsText(c.args) + "]"
  }

  /** `PlayerAction`: the command of a turn and the messages the player logged. */
  class PlayerAction {
    var command: Option<Command>
    var messages: seq<string>

    /** A new action: no command, no messages. */
    constructor ()
      ensures command == None && messages == []
    {
      command := None;
      messages := [];
    }

    /** `log`: one message more, at the end. */
    method Log(message: string)
      modifies this
      ensures messages == old(messages) + [message] && command == old(command)
    {
      messages := messages + [message];
    }

    /** `setCommand`: replaces the command only. */
    method SetCommand(command: Option<Command>)
      modifies this
      ensures this.command == command && messages == old(messages)
    {
      this.command := command;
    }

    /** `toString`. */
    function ToString(): string
      reads this
    {
      ActionText(command, messages)
    }
  }

  /** The text of an action: the command (empty when absent) and the messages joined by ','. */
  function ActionText(command: Option<Command>, messages: seq<string>): string
  {
    "PlayerAction [command=" + (if command.None? then "" else CommandText(command.value))
      + ", messages=[" + Join(messages, ',') + "]]"
  }

  /**
   * The text has a fixed frame around the command and the messages, and the
   * messages can be read back from it when none holds a comma (no message
   * and one empty message give the same text).
   */
  lemma ActionTextReadsBack(command: Option<Command>, messages: seq<string>)
    requires forall k :: 0 <= k < |messages| ==> ',' !in messages[k]
    ensures var cmd := if command.None? then "" else CommandText(command.value);
      var r := ActionText(command, messages);
      var head := "PlayerAction [command=" + cmd + ", messages=[";
      && |r| >= |head| + 2
      && r[..|head|] == head
      && r[|r| - 2..] == "]]"
      && (messages == [] ==> r[|head|..|r| - 2] == "")
      && (messages != [] ==> Pieces(r[|head|..|r| - 2], ',') == messages)
  {
    var cmd := if command.None? then "" else CommandText(command.value);
    var head := "PlayerAction [command=" + cmd + ", messages=[";
    var body := Join(messages, ',');
    var r := ActionText(command, messages);
    assert r == head + body + "]]";
    assert r[..|head|] == head;
    assert r[|head|..|r| - 2] == body;
    assert r[|r| - 2..] == "]]";
    if messages != [] {
      JoinPieces(messages, ',');
    }
  }
}
