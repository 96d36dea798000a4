# Snipher bot: reply logic

This project models the decision logic of the Snipher Telegram bot (`main.py`)
in Dafny and proves properties of it. The model has three parts:

- **Keyword responder.** `handle_response` lower-cases a message and looks for
  substrings in a fixed priority order: "hello", then "thank you" or "thanks",
  then "how are you". When none of them occurs, it gives a fallback reply.
- **Message decision.** In `handle_message`, a message in a chat of type
  exactly `group` is answered only when it contains the bot's mention token
  `@snipher_bot`. In that case every occurrence of the token is removed and the
  surrounding whitespace is stripped before the keywords are matched. In any
  other chat type, `supergroup` included, the text is matched as it is.
- **Command replies.** Each of the six commands `/start`, `/help`, `/about`,
  `/feedback`, `/stop` and `/custom` has one fixed reply. The `/help` reply
  lists the commands.

The project has four modules:

- `PyStr` (`python_str.dfy`) defines the Python `str` operations the bot relies
  on: `lower`, the `in` test, `replace` and `strip`. Each has lemmas that give
  it its Python meaning, such as leftmost non-overlapping replacement or
  stripping exactly the `str.isspace` characters at both ends. The module also
  defines `split`, which the bot never calls. It serves only as the vocabulary
  for the statement about the lines of the help text (`HelpTextLines`,
  `SplitTerminate`).
- `Resolver` (`resolver.dfy`) holds the responder, the message decision, and a
  reference model of the responder as an ordered rule table where the first
  rule that fires wins.
- `Commands` (`commands.dfy`) holds the command names, the replies and the help
  text.
- `Wrappers` (`wrappers.dfy`) holds the `Option` type. `None` means the bot
  stays silent.

Three behaviours of the code are easy to misread. The model follows the code
in each case:

- The mention token is matched case-sensitively. `"@SNIPHER_BOT hello"` in a
  group gets no reply (`ScenarioUpperCaseMentionIgnored`), although the
  keywords themselves are matched case-insensitively.
- All occurrences of the token are removed, wherever they are. Only then is
  whitespace stripped, and only at the two ends of the whole text, not around
  each token. So `"hel@snipher_botlo"` in a group is greeted
  (`ScenarioMentionInsideWord`).
- Removing the token can create a new one: `"@snipher@snipher_bot_bot"`
  becomes `"@snipher_bot"` (`MentionCanSurviveRemoval`).

## Model

| member | source | states |
|---|---|---|
| Resolver.HandleResponse | main.py:47-56 | The reply is one of the four fixed replies. A "hello" anywhere in the lower-cased text gives the greeting; otherwise "thank you" or "thanks" gives the welcome. The status reply comes exactly when neither of those occurs and "how are you" does. The fallback comes exactly when none of the triggers occurs. |
| Resolver.FirstFiring | main.py:49-56 | The index of the first rule in the table that fires on the text: that rule fires, and no earlier rule does. |
| Resolver.Respond | main.py:49-56 | First match wins: when a rule fires and no earlier rule does, the reply is that rule's reply. When no rule fires, the reply is the fallback. In every case the reply is that of some rule that fires, or the fallback. |
| Resolver.FiresOne | main.py:49 | A rule with one trigger fires exactly when the text contains that trigger. |
| Resolver.FiresTwo | main.py:51 | A rule with two triggers fires exactly when the text contains either one. |
| Resolver.HandleResponseIsFirstMatch | main.py:47-56 | `handle_response` equals the first-match evaluation of the ordered rule table (hello; thank you/thanks; how are you) on the lower-cased text, with the fallback reply. |
| Resolver.CaseInsensitive | main.py:48 | Lower-casing the message first does not change the reply. |
| Resolver.GreetingInAnyCase | main.py:48-50 | A message containing "hello" in any mix of upper and lower case is greeted. |
| Resolver.AddressedIsShorter | main.py:66-67 | When the token occurs, the text left after removing it and stripping is strictly shorter than the message. |
| Resolver.Addressed | main.py:67 | The text handed to `handle_response` in a group: every token removed, then both ends stripped, so it neither starts nor ends with whitespace. |
| Resolver.Resolve | main.py:60-72 | There is no reply exactly when the chat type is `group` and the text lacks the token. Any reply is one of the four fixed non-empty replies. Other chat types get `handle_response` of the text unchanged. A group message with the token gets `handle_response` of the text with every token removed and then stripped. |
| Resolver.ScenarioHowAreYou | main.py:53-54 | "How are you today?" in a private chat gets the status reply. |
| Resolver.ScenarioGroupThanks | main.py:65-68 | "@snipher_bot thanks a lot" in a group gets the welcome reply. |
| Resolver.ThanksALotWelcome | main.py:51-52 | "thanks a lot" gets the welcome reply. |
| Resolver.MentionThanksAddressed | main.py:67 | Removing the token from "@snipher_bot thanks a lot" and stripping gives "thanks a lot". |
| Resolver.ScenarioGroupIgnored | main.py:65-70 | "hello everyone" in a group, without the token, gets no reply. |
| Resolver.ScenarioSupergroupNotFiltered | main.py:65-72 | "hello everyone" in a `supergroup` is greeted, because only the exact type `group` is filtered. |
| Resolver.ScenarioUpperCaseMentionIgnored | main.py:66 | The token test is case-sensitive: "@SNIPHER_BOT hello" in a group gets no reply. |
| Resolver.JoinedAcrossMentionStripped | main.py:67 | Removing the token from "hel@snipher_botlo" gives "hello". |
| Resolver.HelloGreets | main.py:49-50 | "hello" gets the greeting. |
| Resolver.ScenarioMentionInsideWord | main.py:65-68 | "hel@snipher_botlo" in a group is greeted. |
| Resolver.SelfFormedMentionRemoval | main.py:67 | Removing the token from "@snipher@snipher_bot_bot" leaves "@snipher_bot". |
| Resolver.StripUsername | main.py:67 | Stripping the token leaves it as it is. |
| Resolver.MentionCanSurviveRemoval | main.py:67 | The text handed to `handle_response` can still contain the token. |
| Commands.Name | main.py:88-93 | The name each command handler is registered under. |
| Commands.Lookup | main.py:88-93 | A command found under a name is registered under exactly that name. |
| Commands.LookupName | main.py:88-93 | Every command is found under its own registered name. |
| Commands.Reply | main.py:13-44 | Each command's fixed reply is non-empty. |
| Commands.Summary | main.py:20-25 | What the help text says each command does. |
| Commands.HelpEntry | main.py:20-25 | One command line of the help text: "/", the command's name, " - ", its summary. |
| Commands.HelpLines | main.py:19-25 | The seven lines of the help text: the header, then the entries of /start, /help, /custom, /about, /feedback, /stop in that order. |
| Commands.HelpCommandReplyLines | main.py:17-27 | The command registered as "help" is `/help`, and its reply, split at newlines, is the header, the six command lines in order, and the empty piece after the final newline. |
| Commands.HelpOrderListsEachCommandOnce | main.py:18-26 | The help listing names every command, and none twice. |
| Commands.HelpTextLines | main.py:18-26 | Split at newlines, the help text gives the header, then one line per command in the order /start, /help, /custom, /about, /feedback, /stop, then the empty piece after the final newline. |
| Commands.HelpTextTerminated | main.py:18-26 | The help text is those seven lines, each followed by a newline. |
| PyStr.LowerChar | main.py:48 | Lower-casing a character leaves no ASCII capital. It maps each capital to the letter 32 code points above and leaves every other character alone. |
| PyStr.Lower | main.py:48 | `lower` keeps the length and lower-cases each character in place. |
| PyStr.LowerIdempotent | main.py:48 | Lower-casing twice is the same as lower-casing once. |
| PyStr.LowerNoUpper | main.py:48 | A text without capitals is its own lower case. |
| PyStr.Contains | main.py:49-53 | The `in` test holds exactly when the pattern occurs at some position of the text. |
| PyStr.ContainsChar | main.py:49-53 | A one-character pattern occurs exactly when that character is in the text. |
| PyStr.ContainsNeedsChar | main.py:49-53 | A pattern with a character the text lacks does not occur. |
| PyStr.ContainsLower | main.py:48-53 | An occurrence survives lower-casing both text and pattern. |
| PyStr.ContainsInfix | main.py:49-53 | An occurrence survives adding text on either side. |
| PyStr.ReplaceAll | main.py:67 | Replacing with a text no longer than the pattern never lengthens the string. |
| PyStr.ReplaceAllLeftmost | main.py:67 | `replace` keeps the text before the leftmost occurrence, substitutes that occurrence, and continues after it. |
| PyStr.ReplaceAllAround | main.py:67 | When nothing before it matches, the occurrence between `a` and `b` is substituted, and `a` is kept as it is. |
| PyStr.ReplaceAllSelf | main.py:67 | Replacing the pattern by itself gives back the text. |
| PyStr.ReplaceAllAbsent | main.py:67 | When the pattern does not occur, `replace` changes nothing. |
| PyStr.ReplaceAllShrinks | main.py:67 | When the pattern occurs and its replacement is shorter, the result is strictly shorter. |
| PyStr.FirstOccurrenceExists | main.py:67 | Any occurrence has a leftmost occurrence at or before it. |
| PyStr.TerminateSnoc | main.py:18-26 | Appending a line to a list of terminated lines appends that line and its terminator to the text. |
| PyStr.SplitTerminate | main.py:18-26 | Splitting newline-terminated lines that contain no separator gives the lines back, then an empty piece. |
| PyStr.IsSpace | main.py:67 | The 29 characters Python's `str.isspace` accepts, which `strip()` removes. |
| PyStr.LeadingSpace | main.py:67 | The number of leading whitespace characters: all of them are whitespace, and what follows is not. |
| PyStr.TrailingSpace | main.py:67 | The number of trailing whitespace characters: all of them are whitespace, and what precedes them is not. |
| PyStr.Strip | main.py:67 | `strip` returns a piece of the text with nothing but whitespace on either side of it, and it neither starts nor ends with whitespace. It is empty exactly when the text is all whitespace. |
| PyStr.StripUnique | main.py:67 | Stripping whitespace from both ends of a trimmed text gives back exactly that text. |
| PyStr.StripIdempotent | main.py:67 | Stripping twice is the same as stripping once. |

## Left out

- Telegram wiring is left out because it is I/O: the application builder, handler registration beyond the command names, and the `filters.TEXT & ~filters.COMMAND` routing and the `run_polling` event loop that keeps the bot running (main.py:83-102).
- The asynchronous `reply_text` calls are left out. The model returns the reply text, or `None` where nothing is sent.
- Loading `TELEGRAM_API_TOKEN` from the environment and `.env` is left out; it is configuration I/O.
- The `print` logging in `handle_message` and at start-up is left out; it has no effect on replies.
- The error handler and its fixed reply (main.py:77-80) are left out; they depend on the framework's error reporting.
- PyStr.Lower: covers ASCII capitals only. Python's full Unicode `lower` also maps non-ASCII letters, and some of those to several characters, such as 'İ' (U+0130). The trigger words and the token are ASCII, but a reply can still differ. Python lowers the Kelvin sign U+212A to the ASCII letter `k`, so the bot welcomes `"THAN\u212aS"`, while the model leaves that character unchanged and gives the fallback reply.
- PyStr.ReplaceAll: requires a non-empty pattern. Python's behaviour for an empty pattern is not modelled; the bot only replaces the fixed token.
- PyStr.Strip: models `strip()` with no argument over the 29 characters Python's `str.isspace` accepts. `strip(chars)` with an argument is not modelled.
- The message text is assumed present. A non-text update never reaches `handle_message` because of the message filter.
