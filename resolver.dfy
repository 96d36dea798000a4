/**
 The message resolver of main.py: `handle_response`, which turns free text
 into one of four canned replies by case-insensitive substring tests in a
 fixed priority order, and the decision part of `handle_message`, which in
 group chats answers only messages that mention the bot.
 */
module Resolver {
  import opened Wrappers
  import opened PyStr

  /** The bot's mention token (main.py:10). */
  const Username: string := "@snipher_bot"

  /** The chat type whose messages must mention the bot. */
  const GroupChat: string := "group"

  const Greeting: string := "Hello! Welcome to Snipher. How can I assist you?"
  const Welcome: string := "You're very welcome!"
  const Status: string := "I'm just a bot, but I'm here to help!"
  const Fallback: string := "I'm not sure how to respond to that. Try asking for help with /help."

  /** Every reply `handle_response` can give. */
  const Replies: set<string> := {Greeting, Welcome, Status, Fallback}

  predicate SaysHello(t: string) {
    Contains(t, "hello")
  }

  predicate SaysThanks(t: string) {
    Contains(t, "thank you") || Contains(t, "thanks")
  }

  predicate AsksHowAreYou(t: string) {
    Contains(t, "how are you")
  }

  /** `handle_response`: lower-case the text, then the first trigger that
      occurs decides the reply. */
  function HandleResponse(text: string): (r: string)
    ensures r in Replies
    ensures SaysHello(Lower(text)) ==> r == Greeting
    ensures !SaysHello(Lower(text)) && SaysThanks(Lower(text)) ==> r == Welcome
    ensures r == Status <==> !SaysHello(Lower(text)) && !SaysThanks(Lower(text)) && AsksHowAreYou(Lower(text))
    ensures r == Fallback <==> !SaysHello(Lower(text)) && !SaysThanks(Lower(text)) && !AsksHowAreYou(Lower(text))
  {
    var t := Lower(text);
    if Contains(t, "hello") then Greeting
    else if Contains(t, "thank you") || Contains(t, "thanks") then Welcome
    else if Contains(t, "how are you") then Status
    else Fallback
  }

  /** One entry of the ordered trigger table: the reply given when any of
      the trigger phrases occurs. */
  datatype Rule = Rule(triggers: seq<string>, reply: string)

  predicate Fires(rule: Rule, t: string) {
    exists k :: 0 <= k < |rule.triggers| && Contains(t, rule.triggers[k])
  }

  lemma FiresOne(w: string, reply: string, t: string)
    ensures Fires(Rule([w], reply), t) <==> Contains(t, w)
  {
    assert [w][0] == w;
  }

  lemma FiresTwo(w1: string, w2: string, reply: string, t: string)
    ensures Fires(Rule([w1, w2], reply), t) <==> Contains(t, w1) || Contains(t, w2)
  {
    assert [w1, w2][0] == w1 && [w1, w2][1] == w2;
  }

  /** The index of the first rule that fires on `t`, or `|rules|` if none. */
  function FirstFiring(rules: seq<Rule>, t: string): (i: nat)
    ensures i <= |rules|
    ensures i < |rules| ==> Fires(rules[i], t)
    ensures forall j :: 0 <= j < i ==> !Fires(rules[j], t)
  {
    if rules == [] then 0
    else if Fires(rules[0], t) then 0
    else 1 + FirstFiring(rules[1..], t)
  }

  /** Ordered first-match dispatch over a rule table. */
  function Respond(rules: seq<Rule>, t: string, fallback: string): (r: string)
    ensures (exists i :: 0 <= i < |rules| && Fires(rules[i], t) && r == rules[i].reply) || r == fallback
    ensures (forall i :: 0 <= i < |rules| ==> !Fires(rules[i], t)) ==> r == fallback
    ensures forall i :: 0 <= i < |rules| && Fires(rules[i], t) && (forall j :: 0 <= j < i ==> !Fires(rules[j], t))
                        ==> r == rules[i].reply
  {
    var i := FirstFiring(rules, t);
    if i < |rules| then rules[i].reply else fallback
  }

  /** The trigger table of `handle_response`, highest priority first. */
  const ResponseRules: seq<Rule> :=
    [Rule(["hello"], Greeting), Rule(["thank you", "thanks"], Welcome), Rule(["how are you"], Status)]

  /** `handle_response` is first-match dispatch over its trigger table,
      applied to the lower-cased text. */
  lemma HandleResponseIsFirstMatch(text: string)
    ensures HandleResponse(text) == Respond(ResponseRules, Lower(text), Fallback)
  {
    var t := Lower(text);
    var rs := ResponseRules;
    FiresOne("hello", Greeting, t);
    FiresTwo("thank you", "thanks", Welcome, t);
    FiresOne("how are you", Status, t);
    assert rs[1..] == [rs[1], rs[2]] && rs[1..][1..] == [rs[2]] && rs[1..][1..][1..] == [];
    if SaysHello(t) {
      assert FirstFiring(rs, t) == 0;
    } else if SaysThanks(t) {
      assert FirstFiring(rs[1..], t) == 0;
      assert FirstFiring(rs, t) == 1;
    } else if AsksHowAreYou(t) {
      assert FirstFiring(rs[1..][1..], t) == 0;
      assert FirstFiring(rs, t) == 2;
    } else {
      assert FirstFiring(rs[1..][1..][1..], t) == 0;
      assert FirstFiring(rs[1..][1..], t) == 1;
      assert FirstFiring(rs, t) == 3;
    }
  }

  /** Matching ignores case: the reply depends only on the lower-cased text. */
  lemma CaseInsensitive(text: string)
    ensures HandleResponse(Lower(text)) == HandleResponse(text)
  {
    LowerIdempotent(text);
  }

  /** "hello" written in any case, anywhere in the text, gets the greeting,
      whatever else the text says. */
  lemma GreetingInAnyCase(text: string, w: string)
    requires Contains(text, w) && Lower(w) == "hello"
    ensures HandleResponse(text) == Greeting
  {
    ContainsLower(text, w);
  }

  /** A group message with every mention removed and the surrounding
      whitespace stripped: the text `handle_response` then sees. */
  function Addressed(text: string): (r: string)
    ensures Trimmed(r)
  {
    Strip(ReplaceAll(text, Username, ""))
  }

  /** Removing the mention always shortens a group message that has one. */
  lemma AddressedIsShorter(text: string)
    requires Contains(text, Username)
    ensures |Addressed(text)| < |text|
  {
    ReplaceAllShrinks(text, Username, "");
    var r := ReplaceAll(text, Username, "");
    var i: nat :| Padded(r, i, Strip(r));
  }

  /** The decision part of `handle_message`: `None` when the message is
      ignored, otherwise the reply to send. */
  function Resolve(chatType: string, text: string): (r: Option<string>)
    ensures r.None? <==> chatType == GroupChat && !Contains(text, Username)
    ensures r.Some? ==> r.value in Replies && |r.value| > 0
    ensures chatType != GroupChat ==> r == Some(HandleResponse(text))
    ensures chatType == GroupChat && Contains(text, Username) ==> r == Some(HandleResponse(Addressed(text)))
  {
    if chatType == GroupChat then
      if Contains(text, Username) then Some(HandleResponse(Addressed(text)))
      else None
    else Some(HandleResponse(text))
  }

  /* The scenarios below are about fixed messages. Each fact about a string
     literal (its lower case, a phrase it does or does not contain, what
     `replace` or `strip` make of it) is a lemma of its own, so that every
     proof obligation about a literal stays small for the solver; the
     scenario lemmas then combine them. */

  lemma HowAreYouTodayNoHello()
    ensures !SaysHello("how are you today?")
  {
    ContainsNeedsChar("how are you today?", "hello", 'l');
  }

  lemma HowAreYouTodayNoThanks()
    ensures !SaysThanks("how are you today?")
  {
    ContainsNeedsChar("how are you today?", "thank you", 'k');
    ContainsNeedsChar("how are you today?", "thanks", 'k');
  }

  lemma HowAreYouTodayAsks()
    ensures AsksHowAreYou("how are you today?")
  {
    assert OccursAt("how are you today?", "how are you", 0);
  }

  lemma HowAreYouTodayLower()
    ensures Lower("How are you today?") == "how are you today?"
  {
  }

  /** A direct chat asking "How are you today?" gets the status reply. */
  lemma ScenarioHowAreYou()
    ensures Resolve("private", "How are you today?") == Some(Status)
  {
    HowAreYouTodayLower();
    HowAreYouTodayNoHello();
    HowAreYouTodayNoThanks();
    HowAreYouTodayAsks();
  }

  lemma MentionThanksStripped()
    ensures ReplaceAll(Username + " thanks a lot", Username, "") == " thanks a lot"
  {
    ContainsNeedsChar([] + Username[..|Username| - 1], Username, 't');
    ReplaceAllAround([], Username, " thanks a lot", "");
    assert [] + Username + " thanks a lot" == Username + " thanks a lot";
    ContainsNeedsChar(" thanks a lot", Username, '@');
    ReplaceAllAbsent(" thanks a lot", Username, "");
  }

  lemma ThanksALotLower()
    ensures Lower("thanks a lot") == "thanks a lot"
  {
    LowerNoUpper("thanks a lot");
  }

  lemma ThanksALotNoHello()
    ensures !SaysHello("thanks a lot")
  {
    ContainsNeedsChar("thanks a lot", "hello", 'e');
  }

  lemma ThanksALotThanks()
    ensures SaysThanks("thanks a lot")
  {
    assert OccursAt("thanks a lot", "thanks", 0);
  }

  lemma ThanksALotWelcome()
    ensures HandleResponse("thanks a lot") == Welcome
  {
    ThanksALotLower();
    ThanksALotNoHello();
    ThanksALotThanks();
  }

  lemma MentionThanksAddressed()
    ensures Addressed(Username + " thanks a lot") == "thanks a lot"
  {
    MentionThanksStripped();
    StripThanksALot();
  }

  lemma StripThanksALot()
    ensures Strip(" thanks a lot") == "thanks a lot"
  {
    var w, m := " ", "thanks a lot";
    assert AllSpace(w) && Trimmed(m);
    StripUnique(w, m, []);
    assert w + m + [] == " thanks a lot";
  }

  /** In a group, a mention followed by " thanks a lot" gets the gratitude
      reply once the mention and the space after it are removed. */
  lemma ScenarioGroupThanks()
    ensures Resolve("group", Username + " thanks a lot") == Some(Welcome)
  {
    ContainsInfix([], Username, " thanks a lot", Username);
    assert OccursAt(Username, Username, 0);
    assert [] + Username + " thanks a lot" == Username + " thanks a lot";
    MentionThanksAddressed();
    ThanksALotWelcome();
  }

  /** In a group, a message that does not mention the bot is ignored, even
      when it says hello. */
  lemma ScenarioGroupIgnored()
    ensures Resolve("group", "hello everyone") == None
  {
    ContainsNeedsChar("hello everyone", Username, '@');
  }

  /** Only the exact chat type "group" is filtered: a supergroup message
      that does not mention the bot still gets a reply. */
  lemma ScenarioSupergroupNotFiltered()
    ensures Resolve("supergroup", "hello everyone") == Some(Greeting)
  {
    assert OccursAt("hello everyone", "hello", 0);
    LowerNoUpper("hello everyone");
  }

  /** The mention test is case-sensitive, unlike the trigger tests. */
  lemma ScenarioUpperCaseMentionIgnored()
    ensures Resolve("group", "@SNIPHER_BOT hello") == None
  {
    ContainsNeedsChar("@SNIPHER_BOT hello", Username, 's');
  }

  lemma JoinedAcrossMentionStripped()
    ensures ReplaceAll("hel" + Username + "lo", Username, "") == "hello"
  {
    ContainsNeedsChar("hel" + Username[..|Username| - 1], Username, 't');
    ReplaceAllAround("hel", Username, "lo", "");
    assert "hel" + "" + "lo" == "hello";
  }

  lemma HelloGreets()
    ensures HandleResponse("hello") == Greeting
  {
    LowerNoUpper("hello");
    assert OccursAt("hello", "hello", 0);
  }

  /** The mention is cut out before matching, so the text on its two sides
      is joined: a mention inside "hello" still reads as "hello". */
  lemma ScenarioMentionInsideWord()
    ensures Resolve("group", "hel" + Username + "lo") == Some(Greeting)
  {
    assert OccursAt(Username, Username, 0);
    ContainsInfix("hel", Username, "lo", Username);
    JoinedAcrossMentionStripped();
    StripUnique([], "hello", []);
    assert [] + "hello" + [] == "hello";
    HelloGreets();
  }

  lemma SelfFormedMentionRemoval()
    ensures ReplaceAll("@snipher" + Username + "_bot", Username, "") == Username
  {
    ContainsNeedsChar("@snipher" + Username[..|Username| - 1], Username, 't');
    ReplaceAllAround("@snipher", Username, "_bot", "");
    assert "@snipher" + "" + "_bot" == Username;
  }

  lemma StripUsername()
    ensures Strip(Username) == Username
  {
    StripUnique([], Username, []);
    assert [] + Username + [] == Username;
  }

  /** Removal is a single left-to-right pass: a mention formed by the
      removal itself survives into the text that is matched. */
  lemma MentionCanSurviveRemoval()
    ensures Contains(Addressed("@snipher" + Username + "_bot"), Username)
  {
    SelfFormedMentionRemoval();
    StripUsername();
    assert OccursAt(Username, Username, 0);
  }
}
