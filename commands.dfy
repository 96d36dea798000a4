/**
 The command responder of main.py: each of the six commands answers with a
 fixed text, and `/help` answers with a listing of all six commands.
 */
module Commands {
  import opened Wrappers
  import opened PyStr

  datatype Command = Start | Help | About | Feedback | Stop | Custom

  /** The name each command is registered under (main.py:88-93). */
  function Name(c: Command): string {
    match c
    case Start => "start"
    case Help => "help"
    case About => "about"
    case Feedback => "feedback"
    case Stop => "stop"
    case Custom => "custom"
  }

  /** The command registered under `name`, if any. */
  function Lookup(name: string): (r: Option<Command>)
    ensures r.Some? ==> Name(r.value) == name
  {
    if name == "start" then Some(Start)
    else if name == "help" then Some(Help)
    else if name == "about" then Some(About)
    else if name == "feedback" then Some(Feedback)
    else if name == "stop" then Some(Stop)
    else if name == "custom" then Some(Custom)
    else None
  }

  /** Every command is found under its own name. */
  lemma LookupName(c: Command)
    ensures Lookup(Name(c)) == Some(c)
  {
  }

  /** The first line of the help text. */
  const HelpHeader: string := "Here are some commands to get you started:"

  /** The order in which the help text lists the commands. */
  const HelpOrder: seq<Command> := [Start, Help, Custom, About, Feedback, Stop]

  /** What the help text says each command does. */
  function Summary(c: Command): string {
    match c
    case Start => "Greet the bot"
    case Help => "Get help on how to use the bot"
    case Custom => "Run a custom command"
    case About => "Learn more about the bot"
    case Feedback => "Provide feedback"
    case Stop => "Stop the bot interaction"
  }

  /** The help text's line for one command: "/name - summary". */
  function HelpEntry(c: Command): string {
    "/" + Name(c) + " - " + Summary(c)
  }

  /** The reply to `/help`, a header and one line per command, each line
      ended by a newline. */
  const HelpText: string :=
    "Here are some commands to get you started:\n"
    + "/start - Greet the bot\n"
    + "/help - Get help on how to use the bot\n"
    + "/custom - Run a custom command\n"
    + "/about - Learn more about the bot\n"
    + "/feedback - Provide feedback\n"
    + "/stop - Stop the bot interaction\n"

  /** The fixed reply of each command handler. */
  function Reply(c: Command): (r: string)
    ensures |r| > 0
  {
    match c
    case Start => "Hello! I am Snipher, your friendly bot. How can I assist you today?"
    case Help => HelpText
    case About => "I am Snipher, a bot created to assist you with various tasks!"
    case Feedback => "We value your feedback! Please type your feedback and I'll record it."
    case Stop => "Thank you for using Snipher! Goodbye!"
    case Custom => "This is a custom command! Feel free to add more commands to suit your needs."
  }

  /** The help listing names every command exactly once. */
  lemma HelpOrderListsEachCommandOnce()
    ensures forall c: Command :: c in HelpOrder
    ensures forall i, j :: 0 <= i < j < |HelpOrder| ==> HelpOrder[i] != HelpOrder[j]
  {
    forall c: Command ensures c in HelpOrder {
      match c
      case Start => assert HelpOrder[0] == c;
      case Help => assert HelpOrder[1] == c;
      case Custom => assert HelpOrder[2] == c;
      case About => assert HelpOrder[3] == c;
      case Feedback => assert HelpOrder[4] == c;
      case Stop => assert HelpOrder[5] == c;
    }
  }

  /** The lines of the help text, in order. */
  function HelpLines(): seq<string> {
    [HelpHeader] + seq(|HelpOrder|, i requires 0 <= i < |HelpOrder| => HelpEntry(HelpOrder[i]))
  }

  /** The help text is its header and the six command lines, in the order
      /start, /help, /custom, /about, /feedback, /stop, each ended by a
      newline: split at newlines it gives those seven lines and the empty
      piece after the last newline. */
  lemma HelpTextLines()
    ensures |HelpLines()| == 7
    ensures Split(HelpText, "\n") == HelpLines() + [[]]
  {
    var ls := HelpLines();
    LinesOfHelp();
    HelpTextTerminated();
    forall i | 0 <= i < |ls| ensures !Contains(ls[i] + "\n"[..0], "\n") {
      assert ls[i] + "\n"[..0] == ls[i];
      ContainsChar(ls[i], '\n');
      LineHasNoNewline(i);
    }
    SplitTerminate(ls, "\n");
  }

  /** The reply to the command registered as "help", split at newlines, is
      the help listing: the header, the six command lines, the empty piece. */
  lemma HelpCommandReplyLines()
    ensures Lookup("help") == Some(Help)
    ensures Split(Reply(Lookup("help").value), "\n") == HelpLines() + [[]]
  {
    HelpTextLines();
  }

  lemma LinesOfHelp()
    ensures HelpLines() == [HelpHeader, HelpEntry(Start), HelpEntry(Help), HelpEntry(Custom),
                            HelpEntry(About), HelpEntry(Feedback), HelpEntry(Stop)]
  {
  }

  lemma EntryHasNoNewline(c: Command)
    ensures '\n' !in HelpEntry(c)
  {
    NameHasNoNewline(c);
    SummaryHasNoNewline(c);
  }

  lemma NameHasNoNewline(c: Command)
    ensures '\n' !in Name(c)
  {
  }

  lemma SummaryHasNoNewline(c: Command)
    ensures '\n' !in Summary(c)
  {
  }

  lemma LineHasNoNewline(i: nat)
    requires i < |HelpLines()|
    ensures '\n' !in HelpLines()[i]
  {
    LinesOfHelp();
    if i > 0 {
      EntryHasNoNewline(HelpOrder[i - 1]);
    }
  }

  lemma HelpTextTerminated()
    ensures HelpText == Terminate(HelpLines(), "\n")
  {
    LinesOfHelp();
    TerminateSeven(HelpHeader, HelpEntry(Start), HelpEntry(Help), HelpEntry(Custom),
                   HelpEntry(About), HelpEntry(Feedback), HelpEntry(Stop), "\n");
    HeaderLine();
    StartLine();
    HelpLine();
    CustomLine();
    AboutLine();
    FeedbackLine();
    StopLine();
  }

  /* Each line of the help text as the handler writes it, one literal per
     lemma so that every comparison of literals stays small for the solver. */
  lemma HeaderLine() ensures HelpHeader + "\n" == "Here are some commands to get you started:\n" {}
  lemma StartLine() ensures HelpEntry(Start) + "\n" == "/start - Greet the bot\n" {}
  lemma HelpLine() ensures HelpEntry(Help) + "\n" == "/help - Get help on how to use the bot\n" {}
  lemma CustomLine() ensures HelpEntry(Custom) + "\n" == "/custom - Run a custom command\n" {}
  lemma AboutLine() ensures HelpEntry(About) + "\n" == "/about - Learn more about the bot\n" {}
  lemma FeedbackLine() ensures HelpEntry(Feedback) + "\n" == "/feedback - Provide feedback\n" {}
  lemma StopLine() ensures HelpEntry(Stop) + "\n" == "/stop - Stop the bot interaction\n" {}
}
