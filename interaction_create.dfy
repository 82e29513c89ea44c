/** The `interactionCreate` event handler: it routes a chat-input command to
    the registered command by name, runs it once, and logs (never rethrows) a
    failure. The registry is the `client.commands` collection, read only. */
module InteractionCreate {
  import opened JsText

  /** The parts of an interaction the dispatcher looks at. */
  datatype Interaction = Interaction(isChatInputCommand: bool, commandName: JsString)

  /** How a command's `execute(interaction)` promise settled. */
  datatype Settled = Resolved | Rejected(error: JsError)

  /** One `console.error` call: a text, or the error object itself. */
  datatype LogEntry = LogText(text: JsString) | LogError(error: JsError)

  /** What one dispatch did. The dispatcher's own promise always resolves: no
      outcome carries an error out of it, and it sends no reply itself. */
  datatype Dispatch<C> =
    | Ignored
    | NotFound(log: seq<LogEntry>)
    | Ran(command: C, settled: Settled, log: seq<LogEntry>)
  {
    /** The commands whose `execute` was invoked, in order. */
    function Invoked(): seq<C> {
      if Ran? then [command] else []
    }
  }

  /** `interactionCreate.execute(interaction)`. `registry` is
      `interaction.client.commands`; `run(command, interaction)` is how the
      command's `execute` settles. */
  function Execute<C>(registry: map<JsString, C>, interaction: Interaction,
                      run: (C, Interaction) -> Settled): (d: Dispatch<C>)
    ensures d.Ignored? <==> !interaction.isChatInputCommand
    ensures d.NotFound? <==> interaction.isChatInputCommand && interaction.commandName !in registry
    ensures d.NotFound? ==>
      d.log == [LogText(Str("No command matching ") + interaction.commandName + Str(" was found."))]
    ensures d.Ran? <==> interaction.isChatInputCommand && interaction.commandName in registry
    ensures d.Ran? ==>
      && d.Invoked() == [registry[interaction.commandName]]
      && d.settled == run(d.command, interaction)
    ensures d.Ran? && d.settled.Resolved? ==> d.log == []
    ensures d.Ran? && d.settled.Rejected? ==>
      d.log == [LogText(Str("Error executing ") + interaction.commandName), LogError(d.settled.error)]
    ensures !d.Ran? ==> d.Invoked() == []
  {
    if !interaction.isChatInputCommand then Ignored
    else if interaction.commandName !in registry then
      NotFound([LogText(Str("No command matching ") + interaction.commandName + Str(" was found."))])
    else
      var command := registry[interaction.commandName];
      match run(command, interaction)
      case Resolved => Ran(command, Resolved, [])
      case Rejected(error) =>
        Ran(command, Rejected(error), [LogText(Str("Error executing ") + interaction.commandName), LogError(error)])
  }

  /** A non-chat-input interaction is dropped before any lookup: the outcome
      does not depend on the registry or on any command. */
  lemma NonChatInputIgnoresRegistry<C>(r1: map<JsString, C>, r2: map<JsString, C>, interaction: Interaction,
                                        run1: (C, Interaction) -> Settled, run2: (C, Interaction) -> Settled)
    requires !interaction.isChatInputCommand
    ensures Execute(r1, interaction, run1) == Execute(r2, interaction, run2) == Ignored
  {
  }

  /** The commands the bot registers at start-up. */
  datatype Command = Read | Parse | RigsStats

  /** `client.commands` as filled at start-up, keyed by each command's name. */
  function BotRegistry(): (registry: map<JsString, Command>)
    ensures registry.Keys == {Str("read"), Str("parse"), Str("rigs-stats")}
  {
    map[Str("read") := Read, Str("parse") := Parse, Str("rigs-stats") := RigsStats]
  }

  /** With the start-up registry, a `/parse` invocation runs the `parse`
      command once and a `/rigs` invocation (a command that is not
      registered) runs nothing. */
  lemma BotRegistryRoutes(run: (Command, Interaction) -> Settled)
    ensures Execute(BotRegistry(), Interaction(true, Str("parse")), run).Invoked() == [Parse]
    ensures Execute(BotRegistry(), Interaction(true, Str("rigs")), run).NotFound?
  {
    assert Str("rigs") != Str("read") by { assert Str("rigs")[1] != Str("read")[1]; }
    assert Str("rigs") != Str("parse") && Str("rigs") != Str("rigs-stats");
  }
}
