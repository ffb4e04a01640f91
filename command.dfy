// The command line's free words: the sub-command and its arguments.  Parsing
// either yields a command or one of the errors below; every accepted command
// takes exactly the words it needs and rejects anything after them.
module Commands {
  import opened Wrappers

  datatype UserCommand = Add(name: string)

  datatype Command =
    | Usage
    | Init
    | Dummy
    | Status
    | Server(address: string)
    | User(user: UserCommand)

  datatype ParseError =
    | UnknownCommand(word: string)
    | UnknownSubcommand(word: string)
    | MissingSubcommand
    | MissingUserName
    | UnexpectedArgs(args: seq<string>)

  /** The address `server` listens on; it cannot be changed from the command
    * line. */
  const DefaultServerAddress: string := "127.0.0.1:8000"

  /** Accepts `command` when no words are left over, and otherwise reports
    * the leftovers. */
  function ParseDone(args: seq<string>, command: Command): (r: Result<Command, ParseError>)
    ensures r.Success? <==> args == []
    ensures r.Success? ==> r.value == command
    ensures r.Failure? ==> r.error == UnexpectedArgs(args)
  {
    if args == [] then Success(command) else Failure(UnexpectedArgs(args))
  }

  /** `user add NAME`: the name is the next word, which must be the last. */
  function ParseUserAddCommand(args: seq<string>): (r: Result<Command, ParseError>)
    ensures r == Failure(MissingUserName) <==> args == []
    ensures r.Success? <==> |args| == 1
    ensures r.Success? ==> r.value == User(Add(args[0]))
  {
    if args != [] then ParseDone(args[1..], User(Add(args[0])))
    else Failure(MissingUserName)
  }

  /** `user SUBCOMMAND ...`: only `add` is known. */
  function ParseUserCommand(args: seq<string>): (r: Result<Command, ParseError>)
    ensures r == Failure(MissingSubcommand) <==> args == []
    ensures r.Success? <==> |args| == 2 && args[0] == "add"
    ensures r.Success? ==> r.value == User(Add(args[1]))
  {
    if args != [] then
      if args[0] == "add" then ParseUserAddCommand(args[1..])
      else Failure(UnknownSubcommand(args[0]))
    else Failure(MissingSubcommand)
  }

  /** The whole list of free words; no words at all asks for the usage text. */
  function ParseCommand(cmd: seq<string>): (r: Result<Command, ParseError>)
    ensures r == Success(Usage) <==> cmd == []
    ensures r.Success? ==> Reachable(r.value) && |cmd| <= 3
  {
    if cmd != [] then
      if cmd[0] == "init" then ParseDone(cmd[1..], Init)
      else if cmd[0] == "dummy" then ParseDone(cmd[1..], Dummy)
      else if cmd[0] == "status" then ParseDone(cmd[1..], Status)
      else if cmd[0] == "server" then ParseDone(cmd[1..], Server(DefaultServerAddress))
      else if cmd[0] == "user" then ParseUserCommand(cmd[1..])
      else Failure(UnknownCommand(cmd[0]))
    else Success(Usage)
  }

  /** The words that spell a command: the inverse of parsing. */
  function Words(c: Command): seq<string>
  {
    match c
    case Usage => []
    case Init => ["init"]
    case Dummy => ["dummy"]
    case Status => ["status"]
    case Server(_) => ["server"]
    case User(Add(name)) => ["user", "add", name]
  }

  /** Commands the parser can produce: a server only on the default address. */
  predicate Reachable(c: Command)
  {
    c.Server? ==> c.address == DefaultServerAddress
  }

  /** Spelling a reachable command and parsing the words gives it back. */
  lemma ParseWords(c: Command)
    requires Reachable(c)
    ensures ParseCommand(Words(c)) == Success(c)
  {
  }

  /** A successful parse consumed exactly the words of the command it found:
    * nothing is silently ignored. */
  lemma ParsedWords(cmd: seq<string>)
    requires ParseCommand(cmd).Success?
    ensures Reachable(ParseCommand(cmd).value)
    ensures Words(ParseCommand(cmd).value) == cmd
  {
    if cmd != [] && cmd[0] == "user" {
      assert cmd == ["user", "add", cmd[2]];
    }
  }

  /** The errors, each tied to the words that cause it. */
  lemma ParseErrors(cmd: seq<string>)
    ensures ParseCommand(cmd) == Failure(MissingSubcommand) <==> cmd == ["user"]
    ensures ParseCommand(cmd) == Failure(MissingUserName) <==> cmd == ["user", "add"]
    ensures ParseCommand(cmd).Failure? && ParseCommand(cmd).error.UnknownCommand? <==>
              cmd != [] && cmd[0] !in {"init", "dummy", "status", "server", "user"}
    ensures ParseCommand(cmd).Failure? && ParseCommand(cmd).error.UnknownSubcommand? <==>
              |cmd| >= 2 && cmd[0] == "user" && cmd[1] != "add"
    ensures ParseCommand(cmd).Failure? && ParseCommand(cmd).error.UnexpectedArgs? <==>
              Recognised(cmd) && |cmd| > |Words(Canonical(cmd))|
    ensures ParseCommand(cmd).Failure? && ParseCommand(cmd).error.UnexpectedArgs? ==>
              Recognised(cmd) && ParseCommand(cmd).error.args == cmd[|Words(Canonical(cmd))|..]
  {
  }

  /** The leading words name a command (`init`, ..., or `user add NAME`). */
  predicate Recognised(cmd: seq<string>)
  {
    cmd != [] &&
    (cmd[0] in {"init", "dummy", "status", "server"}
     || (|cmd| >= 3 && cmd[0] == "user" && cmd[1] == "add"))
  }

  /** The command the leading words name, ignoring what follows. */
  function Canonical(cmd: seq<string>): Command
    requires Recognised(cmd)
  {
    if cmd[0] == "init" then Init
    else if cmd[0] == "dummy" then Dummy
    else if cmd[0] == "status" then Status
    else if cmd[0] == "server" then Server(DefaultServerAddress)
    else User(Add(cmd[2]))
  }
}
