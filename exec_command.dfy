/**
 * exec.CommandInfo: the definition of a command to execute (its
 * executable path, its argument list and its context), how it is
 * printed and how it is validated against a path renderer.
 */
module ExecCommand {
  import opened Wrappers
  import Strings

  /**
   * exec.Context without its stdio streams: the environment (None for
   * Go's nil, which means "inherit"; Some([]) for an empty one) and the
   * working directory.
   */
  datatype Context = Context(env: Option<seq<string>>, dir: string)

  /** The zero Context: nothing set. */
  const NoContext := Context(None, "")

  datatype CommandInfo = CommandInfo(path: string, args: seq<string>, context: Context)

  /** The errors.NotValid values ValidateRendered returns, by message. */
  datatype ValidationError =
    | MissingPath                                  // "missing command Path"
    | MissingArgs                                  // "missing command Args (including command name)"
    | NameMismatch(path: string, name: string)     // "command name mismatch: %q !-> %q"

  /** NewCommandInfo: the path is also the first argument; no context is set. */
  function NewCommandInfo(path: string, args: seq<string>): (info: CommandInfo)
    ensures info.path == path && |info.args| == |args| + 1 && info.args[0] == path && info.args[1..] == args
    ensures info.context == NoContext
  {
    CommandInfo(path, [path] + args, NoContext)
  }

  /** String: how the command is printed. */
  function String(info: CommandInfo): (r: string)
    ensures info.path == "" ==> r == Strings.Join(info.args, " ")
    ensures info.path != "" && info.args == [] ==> r == info.path
  {
    if info.path == "" then Strings.Join(info.args, " ")
    else if |info.args| == 0 then info.path
    else Strings.Join([info.path] + info.args[1..], " ")
  }

  /** With a path and arguments, String prints the arguments with the first one replaced by the path. */
  lemma StringReplacesName(info: CommandInfo)
    requires info.path != "" && info.args != []
    ensures String(info) == Strings.Join(info.args[0 := info.path], " ")
  {
    assert info.args[0 := info.path] == [info.path] + info.args[1..];
  }

  /** A command built by NewCommandInfo prints as its path followed by its arguments, space-separated. */
  lemma StringOfNew(path: string, args: seq<string>)
    requires path != ""
    ensures String(NewCommandInfo(path, args)) == if args == [] then path else path + " " + Strings.Join(args, " ")
  {
    var info := NewCommandInfo(path, args);
    assert info.args[1..] == args;
    if args != [] {
      Strings.JoinCons(path, args, " ");
    }
  }

  /** Context.ValidateRendered: no context is rejected. */
  function ValidateContext(c: Context, base: string -> string): Option<ValidationError> {
    None
  }

  /**
   * ValidateRendered: the path must be set, then the argument list, and
   * then `base` (the renderer's Base) of the path must be the first
   * argument; otherwise the context decides.
   */
  function ValidateRendered(info: CommandInfo, base: string -> string): (r: Option<ValidationError>)
    ensures info.path == "" ==> r == Some(MissingPath)
    ensures info.path != "" && info.args == [] ==> r == Some(MissingArgs)
    ensures r.None? <==> info.path != "" && info.args != [] && base(info.path) == info.args[0]
    ensures info.path != "" && info.args != [] && base(info.path) != info.args[0] ==>
              r == Some(NameMismatch(info.path, info.args[0]))
  {
    if info.path == "" then Some(MissingPath)
    else if |info.args| == 0 then Some(MissingArgs)
    else if base(info.path) != info.args[0] then Some(NameMismatch(info.path, info.args[0]))
    else ValidateContext(info.context, base)
  }

  /** A missing path or argument list is reported without consulting the renderer. */
  lemma ValidateIncompleteIgnoresRenderer(info: CommandInfo, base1: string -> string, base2: string -> string)
    requires info.path == "" || info.args == []
    ensures ValidateRendered(info, base1) == ValidateRendered(info, base2)
  {
  }

  /** A command built by NewCommandInfo is valid exactly when its path is set and the renderer's Base leaves it unchanged. */
  lemma ValidateNew(path: string, args: seq<string>, base: string -> string)
    ensures ValidateRendered(NewCommandInfo(path, args), base).None? <==> path != "" && base(path) == path
  {
  }

  /**
   * NewCommand: the execution system's Command is asked for the info
   * NewCommandInfo builds, and its command or its error is passed on.
   */
  function NewCommand<C, E>(command: CommandInfo -> Result<C, E>, path: string, args: seq<string>): (r: Result<C, E>)
    ensures r == command(CommandInfo(path, [path] + args, NoContext))
  {
    command(NewCommandInfo(path, args))
  }
}
