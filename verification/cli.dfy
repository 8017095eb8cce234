/** The entry point: the argument guard, then message resolution, configuration
    loading and dispatch, in that order; the first failure ends the run. */
module Cli {
  import opened Results
  import opened Paths
  import opened Media
  import Message
  import Config
  import opened Dispatch

  /** Why a run ends with a non-zero exit status. */
  datatype RunError =
    | Usage                                    // neither a message argument nor an attachment
    | BadMessage(message: Message.MessageError)
    | BadConfig(config: Config.ConfigError)
    | Undeliverable(dispatch: DispatchError)

  /** What a run sees of the machine it runs on: the file tests, the file reader and
      the configuration file beside the program, as its lines or `None` when absent. */
  datatype Env = Env(
    isFile: string -> bool,
    present: string -> bool,
    read: string -> Result<string, string>,
    configFile: Option<seq<string>>)

  /** The argument guard: a run needs a message argument or at least one attachment.
      It looks at the raw argument, before any file is read. */
  predicate GuardRejects(rawMessage: string, atts: seq<string>) {
    rawMessage == [] && atts == []
  }

  /** One invocation with message argument `rawMessage` and the attachment paths
      `atts` (empty when no `-a` was given): the actions sent, or the error that ends it. */
  function Run(rawMessage: string, atts: seq<string>, env: Env): (r: Result<seq<Action>, RunError>)
    ensures r == Err(Usage) <==> GuardRejects(rawMessage, atts)
    ensures r.Err? && r.error.BadMessage? ==>
      Message.Resolve(rawMessage, env.isFile, env.read).Err?
    ensures r.Err? && r.error.BadConfig? ==>
      Message.Resolve(rawMessage, env.isFile, env.read).Ok? && Config.Load(env.configFile).Err?
    ensures r.Ok? ==>
      && Config.Load(env.configFile).Ok?
      && Message.Resolve(rawMessage, env.isFile, env.read).Ok?
      && Ok(r.value) == Plan(Message.Resolve(rawMessage, env.isFile, env.read).value, atts, env.present)
    ensures r == Err(Undeliverable(NothingToSend)) <==>
      && !GuardRejects(rawMessage, atts)
      && atts == []
      && Message.Resolve(rawMessage, env.isFile, env.read) == Ok([])
      && Config.Load(env.configFile).Ok?
  {
    if GuardRejects(rawMessage, atts) then Err(Usage)
    else match Message.Resolve(rawMessage, env.isFile, env.read)
      case Err(e) => Err(BadMessage(e))
      case Ok(message) =>
        match Config.Load(env.configFile)
        case Err(e) => Err(BadConfig(e))
        case Ok(_) =>
          match Plan(message, atts, env.present)
          case Err(e) => Err(Undeliverable(e))
          case Ok(trace) => Ok(trace)
  }

  /** A failed run reports the very error that ended it: the message error with the
      reader's cause, or the configuration error, missing file or missing key. */
  lemma RunErrorIsCause(rawMessage: string, atts: seq<string>, env: Env)
    ensures var r := Run(rawMessage, atts, env);
      r.Err? && r.error.BadMessage? ==> Message.Resolve(rawMessage, env.isFile, env.read) == Err(r.error.message)
    ensures var r := Run(rawMessage, atts, env);
      r.Err? && r.error.BadConfig? ==> Config.Load(env.configFile) == Err(r.error.config)
    ensures var r := Run(rawMessage, atts, env);
      r.Err? && r.error.Undeliverable? ==>
        Plan(Message.Resolve(rawMessage, env.isFile, env.read).value, atts, env.present) == Err(r.error.dispatch)
  {
  }

  /** The guard tests the raw argument, not the resolved text: an empty message file
      with no attachments passes it and the run fails later, with nothing to send. */
  lemma EmptyMessageFilePassesGuard(path: string, env: Env)
    requires Message.IsMessageFile(path, env.isFile) && env.read(path) == Ok([])
    requires Config.Load(env.configFile).Ok?
    ensures !GuardRejects(path, [])
    ensures Run(path, [], env) == Err(Undeliverable(NothingToSend))
  {
    assert path != [] by {
      assert Suffix(path) != [];
    }
  }

  /** With no attachments and a message that resolves to non-empty text, a run sends
      exactly that text once, provided the configuration loads. */
  lemma TextOnlyRun(rawMessage: string, env: Env)
    requires rawMessage != []
    requires Message.Resolve(rawMessage, env.isFile, env.read).Ok?
    requires Message.Resolve(rawMessage, env.isFile, env.read).value != []
    requires Config.Load(env.configFile).Ok?
    ensures Run(rawMessage, [], env) == Ok([SendText(Message.Resolve(rawMessage, env.isFile, env.read).value)])
  {
  }
}
