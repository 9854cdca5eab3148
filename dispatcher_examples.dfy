/** The requests and log lines `Dispatcher#post` produces for the concrete
    states its examples post, derived from the model. Each example takes
    its string constants as parameters pinned by `requires`, so that the
    long literals are compared once, in small lemmas of their own. */
module DispatcherExamples {
  import opened Decimal
  import opened Symbols
  import opened RubyValues
  import opened OrderedHashes
  import opened StateOps
  import opened UrlKeys
  import opened FormEncoding
  import opened CommandTemplates
  import opened Dispatchers

  // ---------------------------------------------------------------------
  // Helpers: keys, the shape of a small query, one encoded pair.

  lemma FirstKeys()
    ensures KeyOf(0) == "a" && KeyOf(1) == "b" && KeyOf(2) == "c"
  {
  }

  /** Two pairs are joined by one `&`. */
  lemma FormOfTwo(cmds: seq<(string, string)>)
    requires |cmds| == 2
    ensures EncodeForm(cmds) == EncodePair(cmds[0]) + "&" + EncodePair(cmds[1])
  {
    assert cmds[1..] == [cmds[1]];
  }

  /** Three pairs are joined by two `&`. */
  lemma FormOfThree(cmds: seq<(string, string)>)
    requires |cmds| == 3
    ensures EncodeForm(cmds) == EncodePair(cmds[0]) + "&" + (EncodePair(cmds[1]) + "&" + EncodePair(cmds[2]))
  {
    var t := cmds[1..];
    assert t[1..] == [cmds[2]];
    assert EncodeForm(t[1..]) == EncodePair(cmds[2]);
  }

  /** One bracketed pair, stated against its expected text. */
  lemma BracketedText(p: (string, string), k: string, name: string, value: string, text: string)
    requires AllUnreserved(k) && AllUnreserved(name) && AllUnreserved(value)
    requires p == (k, name + "[" + value + "]") && text == k + "=" + name + "%5B" + value + "%5D"
    ensures EncodePair(p) == text
  {
    EncodeBracketedPair(k, name, value);
  }

  /** One plain pair, stated against its expected text. */
  lemma PlainText(p: (string, string), k: string, c: string, text: string)
    requires AllUnreserved(k) && AllUnreserved(c)
    requires p == (k, c) && text == k + "=" + c
    ensures EncodePair(p) == text
  {
    EncodePlainPair(k, c);
  }

  /** The command of an entry whose template is `name[%s]`. */
  lemma BracketCommand(i: nat, e: (Attr, Value), name: string, value: string)
    requires Template(e.0).Some? && !Valueless(e.0)
    requires Head(e.0) == name + "[" && Tail(e.0) == "]" && Render(e.1) == value
    ensures CommandAt(i, e) == (KeyOf(i), name + "[" + value + "]")
  {
    TemplateShape(e.0, value);
  }

  /** A state whose every value is set posts every entry. */
  lemma PostsAll(h: Attrs)
    requires forall i | 0 <= i < |h| :: !h[i].1.Nil?
    ensures Present(h) == h
  {
    PresentAll(h);
  }

  // ---------------------------------------------------------------------
  // rcs: true, sas: true, lights: false, in that order.

  lemma SwitchCommands(h: Attrs, rcs: string, sas: string, light: string, yes: string, no: string)
    requires h == [(Rcs, Bool(true)), (Sas, Bool(true)), (Lights, Bool(false))]
    requires rcs == "f.rcs" && sas == "f.sas" && light == "f.light" && yes == "True" && no == "False"
    ensures CommandsOf(h) == [(KeyOf(0), rcs + "[" + yes + "]"), (KeyOf(1), sas + "[" + yes + "]"), (KeyOf(2), light + "[" + no + "]")]
  {
    AllTemplated(h);
    BracketCommand(0, h[0], rcs, yes);
    BracketCommand(1, h[1], sas, yes);
    BracketCommand(2, h[2], light, no);
  }

  lemma RcsPair(p: (string, string), rcs: string, yes: string)
    requires rcs == "f.rcs" && yes == "True"
    requires p == ("a", rcs + "[" + yes + "]")
    ensures EncodePair(p) == "a=f.rcs%5BTrue%5D"
  {
    BracketedText(p, "a", rcs, yes, "a=f.rcs%5BTrue%5D");
  }

  lemma SasPair(p: (string, string), sas: string, yes: string)
    requires sas == "f.sas" && yes == "True"
    requires p == ("b", sas + "[" + yes + "]")
    ensures EncodePair(p) == "b=f.sas%5BTrue%5D"
  {
    BracketedText(p, "b", sas, yes, "b=f.sas%5BTrue%5D");
  }

  lemma LightPair(p: (string, string), light: string, no: string)
    requires light == "f.light" && no == "False"
    requires p == ("c", light + "[" + no + "]")
    ensures EncodePair(p) == "c=f.light%5BFalse%5D"
  {
    BracketedText(p, "c", light, no, "c=f.light%5BFalse%5D");
  }

  lemma SwitchQuery(cmds: seq<(string, string)>, rcs: string, sas: string, light: string, yes: string, no: string)
    requires rcs == "f.rcs" && sas == "f.sas" && light == "f.light" && yes == "True" && no == "False"
    requires cmds == [(KeyOf(0), rcs + "[" + yes + "]"), (KeyOf(1), sas + "[" + yes + "]"), (KeyOf(2), light + "[" + no + "]")]
    ensures EncodeForm(cmds) == "a=f.rcs%5BTrue%5D" + "&" + ("b=f.sas%5BTrue%5D" + "&" + "c=f.light%5BFalse%5D")
  {
    FirstKeys();
    FormOfThree(cmds);
    RcsPair(cmds[0], rcs, yes);
    SasPair(cmds[1], sas, yes);
    LightPair(cmds[2], light, no);
  }

  /** Several commands go out in one request, keyed a, b, c in the order
      they were written, Booleans as `True`/`False`. */
  lemma MultipleCommandsExample(h: Attrs, rcs: string, sas: string, light: string, yes: string, no: string)
    requires h == [(Rcs, Bool(true)), (Sas, Bool(true)), (Lights, Bool(false))]
    requires rcs == "f.rcs" && sas == "f.sas" && light == "f.light" && yes == "True" && no == "False"
    ensures Requested(DEFAULT_URL, true, CommandsOf(Present(h))) ==
              [DEFAULT_URL + "?" + ("a=f.rcs%5BTrue%5D" + "&" + ("b=f.sas%5BTrue%5D" + "&" + "c=f.light%5BFalse%5D"))]
  {
    PostsAll(h);
    SwitchCommands(h, rcs, sas, light, yes, no);
    SwitchQuery(CommandsOf(h), rcs, sas, light, yes, no);
  }

  // ---------------------------------------------------------------------
  // throttle: 84.

  lemma EightyFour(n: int, value: string)
    requires n == 84 && value == "84"
    ensures IntToS(n) == value
  {
    assert n / 10 == 8 && n % 10 == 4;
    assert NatToS(n / 10) == "8";
  }

  lemma ThrottleCommands(h: Attrs, n: int, name: string, value: string)
    requires h == [(Throttle, Int(n))]
    requires n == 84 && name == "f.setThrottle" && value == "84"
    ensures CommandsOf(h) == [(KeyOf(0), name + "[" + value + "]")]
  {
    AllTemplated(h);
    TemplateShape(Throttle, value);
    assert Head(Throttle) == name + "[";
    EightyFour(n, value);
    assert Render(h[0].1) == value;
  }

  lemma ThrottleQuery(cmds: seq<(string, string)>, name: string, value: string)
    requires name == "f.setThrottle" && value == "84"
    requires cmds == [(KeyOf(0), name + "[" + value + "]")]
    ensures EncodeForm(cmds) == "a=f.setThrottle%5B84%5D"
  {
    FirstKeys();
    BracketedText(cmds[0], "a", name, value, "a=f.setThrottle%5B84%5D");
  }

  /** A throttle setting is sent as its integer in brackets. */
  lemma ThrottleExample(h: Attrs, name: string, value: string)
    requires h == [(Throttle, Int(84))]
    requires name == "f.setThrottle" && value == "84"
    ensures Requested(DEFAULT_URL, true, CommandsOf(Present(h))) ==
              [DEFAULT_URL + "?" + "a=f.setThrottle%5B84%5D"]
  {
    PostsAll(h);
    ThrottleCommands(h, 84, name, value);
    ThrottleQuery(CommandsOf(h), name, value);
  }

  // ---------------------------------------------------------------------
  // autopilot_mode: 'prograde'.

  lemma ModeCommands(h: Attrs, command: string)
    requires h == [(AutopilotMode, Str("prograde"))]
    requires command == "mj.prograde"
    ensures CommandsOf(h) == [(KeyOf(0), command)]
  {
    AllTemplated(h);
    TemplateShape(AutopilotMode, "prograde");
    assert Render(h[0].1) == "prograde";
    assert Head(AutopilotMode) == "mj." && Tail(AutopilotMode) == "";
    assert Head(AutopilotMode) + "prograde" + Tail(AutopilotMode) == command;
  }

  lemma ModeQuery(cmds: seq<(string, string)>, command: string)
    requires command == "mj.prograde"
    requires cmds == [(KeyOf(0), command)]
    ensures EncodeForm(cmds) == "a=mj.prograde"
  {
    FirstKeys();
    PlainText(cmds[0], "a", command, "a=mj.prograde");
  }

  /** An autopilot mode is sent as the MechJeb command of that name. */
  lemma ModeExample(h: Attrs, command: string)
    requires h == [(AutopilotMode, Str("prograde"))]
    requires command == "mj.prograde"
    ensures Requested(DEFAULT_URL, true, CommandsOf(Present(h))) ==
              [DEFAULT_URL + "?" + "a=mj.prograde"]
  {
    PostsAll(h);
    ModeCommands(h, command);
    ModeQuery(CommandsOf(h), command);
  }

  // ---------------------------------------------------------------------
  // stage: true, action_group_5: true.

  lemma TriggerCommands(h: Attrs, stage: string, group: string)
    requires h == [(Stage, Bool(true)), (ActionGroup(5), Bool(true))]
    requires stage == "f.stage" && group == "f.ag5"
    ensures CommandsOf(h) == [(KeyOf(0), stage), (KeyOf(1), group)]
  {
    AllTemplated(h);
    TemplateShape(Stage, "True");
    TemplateShape(ActionGroup(5), "True");
    assert Head(ActionGroup(5)) == group;
  }

  lemma StagePair(p: (string, string), stage: string)
    requires stage == "f.stage" && p == ("a", stage)
    ensures EncodePair(p) == "a=f.stage"
  {
    PlainText(p, "a", stage, "a=f.stage");
  }

  lemma GroupPair(p: (string, string), group: string)
    requires group == "f.ag5" && p == ("b", group)
    ensures EncodePair(p) == "b=f.ag5"
  {
    PlainText(p, "b", group, "b=f.ag5");
  }

  lemma TriggerQuery(cmds: seq<(string, string)>, stage: string, group: string)
    requires stage == "f.stage" && group == "f.ag5"
    requires cmds == [(KeyOf(0), stage), (KeyOf(1), group)]
    ensures EncodeForm(cmds) == "a=f.stage&b=f.ag5"
  {
    FirstKeys();
    FormOfTwo(cmds);
    StagePair(cmds[0], stage);
    GroupPair(cmds[1], group);
  }

  /** Staging and action groups are sent as bare commands, whatever their
      value. */
  lemma TriggerExample(h: Attrs, stage: string, group: string)
    requires h == [(Stage, Bool(true)), (ActionGroup(5), Bool(true))]
    requires stage == "f.stage" && group == "f.ag5"
    ensures RequestUri(DEFAULT_URL, CommandsOf(Present(h))) ==
              DEFAULT_URL + "?" + "a=f.stage&b=f.ag5"
    ensures Requested(DEFAULT_URL, true, CommandsOf(Present(h))) ==
              [DEFAULT_URL + "?" + "a=f.stage&b=f.ag5"]
  {
    PostsAll(h);
    TriggerCommands(h, stage, group);
    TriggerQuery(CommandsOf(h), stage, group);
  }

  /** The error line of a refused connection to `url`: the URI, the message
      `Errno::ECONNREFUSED` makes by prefixing "Connection refused - " to
      the text it is raised with, and the class. */
  lemma FailureText(line: LogLine, url: string, raised: string)
    requires line == RequestFailed(url + "?" + "a=f.stage&b=f.ag5", "Connection refused - " + raised, "Errno::ECONNREFUSED")
    ensures Text(line) == "   " + url + "?a=f.stage&b=f.ag5" + " Connection refused - " + raised + " (Errno::ECONNREFUSED)"
  {
    var query, refused, suffix := "?a=f.stage&b=f.ag5", " Connection refused - ", " (Errno::ECONNREFUSED)";
    assert "?" + "a=f.stage&b=f.ag5" == query;
    assert " " + "Connection refused - " == refused;
    assert " (" + "Errno::ECONNREFUSED" + ")" == suffix;
    calc {
      Text(line);
      "   " + (url + "?" + "a=f.stage&b=f.ag5") + " " + ("Connection refused - " + raised) + " (" + "Errno::ECONNREFUSED" + ")";
      "   " + url + query + refused + raised + suffix;
    }
  }

  /** A failed request is logged at error level with the full URI, the
      exception's message and its class. */
  lemma FailureLogExample(h: Attrs, stage: string, group: string, raised: string)
    requires h == [(Stage, Bool(true)), (ActionGroup(5), Bool(true))]
    requires stage == "f.stage" && group == "f.ag5"
    requires raised == "Failed to open TCP connection to 127.0.0.1:8085 (Connection refused - connect(2) for \"127.0.0.1\" port 8085)"
    ensures var log := SendLog(DEFAULT_URL, true, CommandsOf(Present(h)), Failed("Connection refused - " + raised, "Errno::ECONNREFUSED"));
            |log| == 1 && LevelOf(log[0]) == ErrorLevel &&
            Text(log[0]) == "   " + DEFAULT_URL + "?a=f.stage&b=f.ag5" + " Connection refused - " + raised + " (Errno::ECONNREFUSED)"
  {
    TriggerExample(h, stage, group);
    FailureText(SendLog(DEFAULT_URL, true, CommandsOf(Present(h)), Failed("Connection refused - " + raised, "Errno::ECONNREFUSED"))[0], DEFAULT_URL, raised);
  }

  // ---------------------------------------------------------------------
  // An attribute the dispatcher has no template for.

  lemma UnrecognizedText(line: LogLine, name: string)
    requires name == "additional_command" && line == UnrecognizedCommand(Other(name), Bool(true))
    ensures Text(line) == "ignoring unrecognized command " + name + ":true"
  {
    assert Name(line.attr) == name && ToS(line.value) == "true";
  }

  /** An attribute without a template sends nothing and logs one error
      line naming it and its value. */
  lemma UnrecognizedExample(h: Attrs, name: string)
    requires h == [(Other(name), Bool(true))]
    requires name == "additional_command"
    ensures CommandsOf(Present(h)) == []
    ensures Requested(DEFAULT_URL, true, CommandsOf(Present(h))) == []
    ensures Unrecognized(Present(h)) == [UnrecognizedCommand(Other(name), Bool(true))]
    ensures LevelOf(Unrecognized(Present(h))[0]) == ErrorLevel
    ensures Text(Unrecognized(Present(h))[0]) == "ignoring unrecognized command " + name + ":true"
  {
    PostsAll(h);
    CommandsEmpty(h);
    assert Unrecognized(h) == [UnrecognizedCommand(h[0].0, h[0].1)];
    UnrecognizedText(Unrecognized(h)[0], name);
  }
}
