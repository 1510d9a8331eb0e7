/**
 * The string handling of `GameServer`, the small HTTP server that previews
 * a game: reading the request target, finding its extension, sending images
 * to the images folder, writing the response header, checking the command
 * line and choosing a language by its slug. Sockets, files, processes and
 * the browser are outside the model.
 */
module Server {
  import opened Wrappers
  import opened JavaText
  import opened Exceptions
  import MovieModels

  // ---------------------------------------------------------------------------
  // The request target
  // ---------------------------------------------------------------------------

  /**
   * `getRequest`: "/" when the connection gave no request line; otherwise
   * the second space-separated token with everything from the first '?'
   * cut off. None is the `ArrayIndexOutOfBoundsException` of a line with
   * fewer than two tokens, or of a token made only of '?'.
   */
  function GetRequest(requestLine: Option<string>): (r: Option<string>)
    ensures requestLine.None? ==> r == Some("/")
    ensures requestLine.Some? && |Split(requestLine.value, ' ')| < 2 ==> r.None?
    ensures requestLine.Some? && r.Some? ==> ' ' !in r.value && '?' !in r.value
  {
    match requestLine
    case None => Some("/")
    case Some(line) =>
      var parts := Split(line, ' ');
      if |parts| < 2 then None
      else
        var pieces := Split(parts[1], '?');
        SplitPiecesArePieces(line, ' ');
        SplitPiecesArePieces(parts[1], '?');
        if |pieces| == 0 then None
        else
          assert ' ' !in parts[1];
          PieceOfSeparatorFree(parts[1], '?', ' ');
          Some(pieces[0])
  }

  /** Every piece of a text without c is without c too. */
  lemma PieceOfSeparatorFree(s: string, sep: char, c: char)
    requires c !in s
    ensures forall k :: 0 <= k < |Split(s, sep)| ==> c !in Split(s, sep)[k]
  {
    PiecesJoin(s, sep);
    SplitPiecesArePieces(s, sep);
    forall k | 0 <= k < |Split(s, sep)|
      ensures c !in Split(s, sep)[k]
    {
      PieceInJoin(Pieces(s, sep), sep, k);
    }
  }

  /** Each piece lies inside the join of the pieces. */
  lemma {:induction false} PieceInJoin(ps: seq<string>, sep: char, k: int)
    requires 0 <= k < |ps|
    ensures forall c :: c in ps[k] ==> c in Join(ps, sep)
    decreases |ps|
  {
    if |ps| > 1 {
      if k > 0 {
        PieceInJoin(ps[1..], sep, k - 1);
      }
    }
  }

  /**
   * The request line of an HTTP request, "verb target version", gives the
   * path of its target, with or without a query after '?'.
   */
  lemma GetRequestOfRequestLine(verb: string, path: string, query: Option<string>, version: string)
    requires ' ' !in verb && ' ' !in path && ' ' !in version
    requires query.Some? ==> ' ' !in query.value
    requires path != [] && '?' !in path
    ensures var target := if query.Some? then path + "?" + query.value else path;
      GetRequest(Some(verb + " " + target + " " + version)) == Some(path)
  {
    var target := if query.Some? then path + "?" + query.value else path;
    var line := verb + " " + target + " " + version;
    assert ' ' !in target;
    PiecesWithout(version, ' ');
    PiecesOfPrefix(target, ' ', version);
    assert line == verb + [' '] + (target + [' '] + version);
    PiecesOfPrefix(verb, ' ', target + [' '] + version);
    var ps := Pieces(line, ' ');
    assert ps == [verb, target, version];
    assert ' ' in line by { assert line[|verb|] == ' '; }
    var parts := Split(line, ' ');
    assert ps[1] != "";
    assert |parts| >= 2;
    assert parts[1] == ps[1] == target;
    if query.Some? {
      assert target == path + ['?'] + query.value;
      PiecesOfPrefix(path, '?', query.value);
      assert '?' in target by { assert target[|path|] == '?'; }
      var qs := Pieces(target, '?');
      assert qs[0] == path != "";
      var pieces := Split(target, '?');
      assert |pieces| >= 1;
      assert pieces[0] == path;
    } else {
      assert Split(target, '?') == [path];
    }
  }

  /** `getExtension`: the text after the last '.', or null when there is no '.'. */
  function GetExtension(name: string): (r: Option<string>)
    ensures r.None? <==> '.' !in name
    ensures r.Some? ==>
      && |r.value| < |name|
      && name[|name| - |r.value| - 1] == '.'
      && name[|name| - |r.value|..] == r.value
      && '.' !in r.value
  {
    var pos := LastIndexOf(name, '.');
    if pos == -1 then None
    else
      var ext := name[pos + 1..];
      assert forall c :: c in ext ==> exists j :: pos < j < |name| && name[j] == c;
      Some(ext)
  }

  /** A name ending in "." and a dot-free extension has that extension. */
  lemma GetExtensionOf(base: string, ext: string)
    requires '.' !in ext
    ensures GetExtension(base + "." + ext) == Some(ext)
  {
    var name := base + "." + ext;
    assert name[|base|] == '.';
    var r := GetExtension(name);
    var pos := LastIndexOf(name, '.');
    assert forall j :: |base| < j < |name| ==> name[j] == ext[j - |base| - 1];
    assert pos == |base|;
    assert name[pos + 1..] == ext;
  }

  // ---------------------------------------------------------------------------
  // Where a target is looked for
  // ---------------------------------------------------------------------------

  /** `IMAGE_EXTENSIONS`. */
  const ImageExtensions: seq<string> := ["png", "svg", "jpg", "jpeg", "gif"]

  /** `target.replace("/", sep)`: every '/' becomes the separator. */
  function ReplaceSlash(s: string, sep: string): (r: string)
    ensures '/' !in sep ==> '/' !in r
    ensures '/' !in s ==> r == s
    decreases |s|
  {
    if |s| == 0 then ""
    else (if s[0] == '/' then sep else [s[0]]) + ReplaceSlash(s[1..], sep)
  }

  /** Replacing '/' by "/" changes nothing, so the server may skip it on such systems. */
  lemma {:induction false} ReplaceSlashBySlash(s: string)
    ensures ReplaceSlash(s, "/") == s
    decreases |s|
  {
    if |s| > 0 {
      ReplaceSlashBySlash(s[1..]);
      assert s == [s[0]] + s[1..];
    }
  }

  /**
   * The target rewritten for the file system whose separator is `sep`:
   * slashes become the separator, and an image is looked for in the images
   * folder.
   */
  function ResourceTarget(target: string, sep: string): string
  {
    var local := if sep == "/" then target else ReplaceSlash(target, sep);
    var ext := GetExtension(local);
    if ext.Some? && ext.value in ImageExtensions then sep + "images" + sep + local else local
  }

  /** The text after the last '.' of `s` is one of the image extensions. */
  predicate IsImage(s: string)
  {
    var ext := GetExtension(s);
    ext.Some? && ext.value in ImageExtensions
  }

  /**
   * For every target and every separator: the rewritten target is moved under
   * `sep images sep` exactly when it names an image, and is otherwise only
   * rewritten; skipping the rewrite on a '/' system changes nothing. With a
   * separator free of '/', no '/' is left.
   */
  lemma ResourceTargetMeaning(target: string, sep: string)
    ensures IsImage(ReplaceSlash(target, sep)) ==>
      ResourceTarget(target, sep) == sep + "images" + sep + ReplaceSlash(target, sep)
    ensures !IsImage(ReplaceSlash(target, sep)) ==>
      ResourceTarget(target, sep) == ReplaceSlash(target, sep)
    ensures '/' !in sep ==> '/' !in ResourceTarget(target, sep)
  {
    if sep == "/" {
      ReplaceSlashBySlash(target);
    } else {
      var local := ReplaceSlash(target, sep);
      if '/' !in sep && IsImage(local) {
        assert ResourceTarget(target, sep) == sep + "images" + sep + local;
        assert forall k :: 0 <= k < |sep + "images" + sep + local| ==>
          (sep + "images" + sep + local)[k] != '/';
      }
    }
  }

  /** On a '/' system an image target moves under "/images"; any other target stays. */
  lemma ResourceTargetOnSlashSystem(base: string, ext: string)
    requires '.' !in ext
    ensures ext in ImageExtensions ==>
      ResourceTarget(base + "." + ext, "/") == "/images/" + base + "." + ext
    ensures ext !in ImageExtensions ==> ResourceTarget(base + "." + ext, "/") == base + "." + ext
  {
    var name := base + "." + ext;
    GetExtensionOf(base, ext);
    assert GetExtension(name) == Some(ext);
    var r := ResourceTarget(name, "/");
    if ext in ImageExtensions {
      assert r == "/" + "images" + "/" + name;
    } else {
      assert r == name;
    }
  }

  // ---------------------------------------------------------------------------
  // The response header
  // ---------------------------------------------------------------------------

  /** A stream of characters that only grows. */
  class Output {
    var written: string

    constructor ()
      ensures written == ""
    {
      written := "";
    }

    method Write(s: string)
      modifies this
      ensures written == old(written) + s
    {
      written := written + s;
    }
  }

  /** A field value as string concatenation prints it. */
  function Shown(v: Option<string>): string
  {
    if v.None? then "null" else v.value
  }

  /** `fields.get(name)`: the stored value, or null. */
  function Lookup(fields: MovieModels.LinkedMap, name: string): Option<string>
  {
    if name in fields.values then fields.values[name] else None
  }

  function StatusLine(code: Int32, phrase: string): string
  {
    "HTTP/1.0 " + IntToString(code) + " " + phrase
  }

  /** The "name: value" lines of the given field names, in that order. */
  function FieldLines(fields: MovieModels.LinkedMap, names: seq<string>): (r: seq<string>)
    ensures |r| == |names|
    decreases |names|
  {
    if |names| == 0 then []
    else FieldLines(fields, names[..|names| - 1]) + [names[|names| - 1] + ": " + Shown(Lookup(fields, names[|names| - 1]))]
  }

  /** The text `sendResponseHeader` writes: the status line, the fields in order, a blank line. */
  function HeaderText(code: Int32, phrase: string, fields: MovieModels.LinkedMap): string
  {
    Terminated([StatusLine(code, phrase)] + FieldLines(fields, fields.keys) + [""])
  }

  /** `sendResponseHeader`: the header written to the output after what it already held. */
  method SendResponseHeader(output: Output, code: Int32, phrase: string, fields: MovieModels.LinkedMap)
    modifies output
    ensures output.written == old(output.written) + HeaderText(code, phrase, fields)
  {
    var status := StatusLine(code, phrase);
    output.Write(status + "\n");
    WriteFields(output, fields);
    output.Write("\n");
    TerminatedAppend([status] + FieldLines(fields, fields.keys), [""]);
    TerminatedAppend([status], FieldLines(fields, fields.keys));
    assert Terminated([status]) == status + "\n" + Terminated([]);
    assert Terminated([""]) == "\n" + Terminated([]);
  }

  /** The loop of `sendResponseHeader`: one line per field, in insertion order. */
  method WriteFields(output: Output, fields: MovieModels.LinkedMap)
    modifies output
    ensures output.written == old(output.written) + Terminated(FieldLines(fields, fields.keys))
  {
    for k := 0 to |fields.keys|
      invariant output.written == old(output.written) + Terminated(FieldLines(fields, fields.keys[..k]))
    {
      var name := fields.keys[k];
      var line := name + ": " + Shown(Lookup(fields, name));
      output.Write(line + "\n");
      assert fields.keys[..k + 1][..k] == fields.keys[..k];
      TerminatedSnoc(FieldLines(fields, fields.keys[..k]), line);
    }
    assert fields.keys[..|fields.keys|] == fields.keys;
  }

  /** The k-th field line is the k-th name with its value. */
  lemma {:induction false} FieldLineAt(fields: MovieModels.LinkedMap, names: seq<string>, k: int)
    requires 0 <= k < |names|
    ensures FieldLines(fields, names)[k] == names[k] + ": " + Shown(Lookup(fields, names[k]))
    decreases |names|
  {
    if k < |names| - 1 {
      FieldLineAt(fields, names[..|names| - 1], k);
    }
  }

  /**
   * The header reads back line by line: the status line, one line per field
   * in insertion order, then the blank line, when no part holds a '\n'.
   */
  lemma HeaderTextLines(code: Int32, phrase: string, fields: MovieModels.LinkedMap)
    requires '\n' !in phrase
    requires forall k :: 0 <= k < |fields.keys| ==> '\n' !in fields.keys[k] && '\n' !in Shown(Lookup(fields, fields.keys[k]))
    ensures Pieces(HeaderText(code, phrase, fields), '\n') ==
      [StatusLine(code, phrase)] + FieldLines(fields, fields.keys) + ["", ""]
  {
    var lines := [StatusLine(code, phrase)] + FieldLines(fields, fields.keys) + [""];
    TerminatedIsJoin(lines);
    assert '\n' !in IntToString(code) by {
      IntToStringIsDigits(code);
    }
    forall k | 0 <= k < |lines + [""]|
      ensures '\n' !in (lines + [""])[k]
    {
      if 0 < k <= |fields.keys| {
        FieldLineAt(fields, fields.keys, k - 1);
        assert (lines + [""])[k] == fields.keys[k - 1] + ": " + Shown(Lookup(fields, fields.keys[k - 1]));
      }
    }
    JoinPieces(lines + [""], '\n');
    assert lines + [""] == [StatusLine(code, phrase)] + FieldLines(fields, fields.keys) + ["", ""];
  }

  /** A decimal text holds digits and perhaps a leading '-', never a line break. */
  lemma IntToStringIsDigits(n: int)
    ensures '\n' !in IntToString(n)
  {
    NatToStringIsDigits(if n < 0 then -n else n);
  }

  lemma {:induction false} NatToStringIsDigits(n: nat)
    ensures forall k :: 0 <= k < |NatToString(n)| ==> IsDigit(NatToString(n)[k])
    decreases n
  {
    if n >= 10 {
      NatToStringIsDigits(n / 10);
    }
  }

  // ---------------------------------------------------------------------------
  // The command line
  // ---------------------------------------------------------------------------

  /** What `main` makes of its argument count. */
  datatype ArgsVerdict = Usage | TooFewPlayers | TooManyPlayers | Proceed

  /**
   * The argument checks of `main`: a game slug, a manager class name, then
   * (language, program, player) triples, as many players as the manager
   * allows. The bounds are computed in Java `int`.
   */
  function CheckArgs(count: nat, minPlayers: Int32, maxPlayers: Int32): (r: ArgsVerdict)
    ensures r == Usage <==> count < 2 || (count - 2) % 3 != 0
    ensures r == TooFewPlayers <==>
      count >= 2 && (count - 2) % 3 == 0 && count < Wrap32(minPlayers * 3 + 2)
    ensures r == TooManyPlayers <==>
      count >= 2 && (count - 2) % 3 == 0 && Wrap32(minPlayers * 3 + 2) <= count
      && count > Wrap32(maxPlayers * 3 + 2)
    ensures r == Proceed <==>
      count >= 2 && (count - 2) % 3 == 0
      && Wrap32(minPlayers * 3 + 2) <= count <= Wrap32(maxPlayers * 3 + 2)
    ensures r == Proceed && IsInt32(minPlayers * 3 + 2) && IsInt32(maxPlayers * 3 + 2) ==>
      minPlayers <= (count - 2) / 3 <= maxPlayers
  {
    if count < 2 || (count - 2) % 3 > 0 then Usage
    else if count < Wrap32(minPlayers * 3 + 2) then TooFewPlayers
    else if count > Wrap32(maxPlayers * 3 + 2) then TooManyPlayers
    else Proceed
  }

  /**
   * With the default bounds (one player, no maximum) every well-formed
   * argument array of Java size goes through: the maximum times three
   * overflows, but lands on the largest int.
   */
  lemma DefaultBoundsAcceptEveryShape(count: nat)
    requires 2 <= count <= IntMax && (count - 2) % 3 == 0 && count >= 5
    ensures CheckArgs(count, 1, IntMax) == Proceed
  {
    assert Wrap32(IntMax * 3 + 2) == IntMax;
  }

  /** With the default bounds, a slug and a class name and no player is refused. */
  lemma DefaultBoundsRefuseNoPlayer()
    ensures CheckArgs(2, 1, IntMax) == TooFewPlayers
  {
  }

  /** One player's part of the command line. */
  datatype PlayerArgs = PlayerArgs(language: string, program: string, playerId: string)

  /**
   * The loop of `main` that reads the triples from index 2 on. The program
   * path is the one given, placed under the game slug `args[0]` with the
   * file-system separator `sep`.
   */
  method ReadPlayers(args: seq<string>, sep: string) returns (players: seq<PlayerArgs>)
    requires |args| >= 2 && (|args| - 2) % 3 == 0
    ensures |players| == (|args| - 2) / 3
    ensures forall k :: 0 <= k < |players| ==>
      players[k] == PlayerArgs(args[2 + 3 * k], args[0] + sep + args[3 + 3 * k], args[4 + 3 * k])
  {
    players := [];
    var i := 2;
    while i < |args|
      invariant 2 <= i <= |args| && (i - 2) % 3 == 0
      invariant |players| == (i - 2) / 3
      invariant forall k :: 0 <= k < |players| ==>
        players[k] == PlayerArgs(args[2 + 3 * k], args[0] + sep + args[3 + 3 * k], args[4 + 3 * k])
      decreases |args| - i
    {
      players := players + [PlayerArgs(args[i], args[0] + sep + args[i + 1], args[i + 2])];
      i := i + 3;
    }
  }

  // ---------------------------------------------------------------------------
  // Languages
  // ---------------------------------------------------------------------------

  datatype Language = Java | JavaScript

  /** The switch of `compileAndExecute`: one slug for Java, three for JavaScript. */
  function LanguageOf(slug: string): (r: Result<Language, BuilderException>)
    ensures r == Success(Java) <==> slug == "java"
    ensures r == Success(JavaScript) <==> slug == "js" || slug == "javascript" || slug == "es6"
    ensures r.Failure? ==> r.error == BuilderException(Some("Language not found!"))
  {
    if slug == "java" then Success(Java)
    else if slug == "js" || slug == "javascript" || slug == "es6" then Success(JavaScript)
    else Failure(BuilderException(Some("Language not found!")))
  }
}
