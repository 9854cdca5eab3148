/** `Dispatcher`: turns each incoming panel state into one request to the
    flight computer, carrying only what changed since the last state, then
    folds the incoming state into its current state. Unknown attributes are
    skipped with an error line, a failed request is logged and swallowed,
    and requests can be switched off with `send_commands`. */
module Dispatchers {
  import opened Symbols
  import opened RubyValues
  import opened OrderedHashes
  import opened Outcomes
  import opened StateOps
  import opened ControlStates
  import opened UrlKeys
  import opened FormEncoding
  import opened CommandTemplates

  /** What `Net::HTTP.get` does with a request: it completes, or it raises
      an exception with a message and a class name. */
  datatype Outcome = Delivered | Failed(message: string, errorClass: string)

  datatype Level = ErrorLevel | WarnLevel

  /** A line written to the dispatcher's logger at error or warn level. */
  datatype LogLine =
    | UnrecognizedCommand(attr: Attr, value: Value)
    | RequestFailed(uri: string, message: string, errorClass: string)
    | NotSent

  /** The level a line is written at. */
  function LevelOf(line: LogLine): Level
  {
    if line.NotSent? then WarnLevel else ErrorLevel
  }

  /** The text of a line, as the logger receives it. */
  function Text(line: LogLine): string
  {
    match line
    case UnrecognizedCommand(a, v) => "ignoring unrecognized command " + Name(a) + ":" + ToS(v)
    case RequestFailed(uri, message, errorClass) => "   " + uri + " " + message + " (" + errorClass + ")"
    case NotSent => "   not sent due to send_commands:false"
  }

  const DEFAULT_URL: string := "http://127.0.0.1:8085/telemachus/datalink"

  /** The request URI: the base URL with the encoded commands as its query. */
  function RequestUri(url: string, cmds: seq<(string, string)>): string
  {
    url + "?" + EncodeForm(cmds)
  }

  /** `post`'s result: nil when there is no command to send, true otherwise. */
  function PostResult(cmds: seq<(string, string)>): Option<bool>
  {
    if cmds == [] then None else Some(true)
  }

  /** The requests `post` makes: one when there are commands and sending is
      switched on, none otherwise. */
  function Requested(url: string, send: bool, cmds: seq<(string, string)>): seq<string>
  {
    if cmds == [] || !send then [] else [RequestUri(url, cmds)]
  }

  /** One error line per entry without a template, in order. */
  function Unrecognized(entries: seq<(Attr, Value)>): seq<LogLine>
    decreases |entries|
  {
    if entries == [] then []
    else
      var n := |entries| - 1;
      Unrecognized(entries[..n]) + (if Template(entries[n].0).None? then [UnrecognizedCommand(entries[n].0, entries[n].1)] else [])
  }

  /** The error lines grow by at most one line per entry. */
  lemma UnrecognizedStep(entries: seq<(Attr, Value)>, i: nat)
    requires i < |entries|
    ensures Unrecognized(entries[..i + 1]) ==
            Unrecognized(entries[..i]) + (if Template(entries[i].0).None? then [UnrecognizedCommand(entries[i].0, entries[i].1)] else [])
  {
    assert entries[..i + 1][..i] == entries[..i];
  }

  /** The lines `post` logs after building its commands: the rescued
      exception of a failed request, or the warning that sending is off. */
  function SendLog(url: string, send: bool, cmds: seq<(string, string)>, outcome: Outcome): seq<LogLine>
  {
    if cmds == [] then []
    else if !send then [NotSent]
    else if outcome.Failed? then
      [RequestFailed(RequestUri(url, cmds), outcome.message, outcome.errorClass)]
    else []
  }

  /** The commands `process` posts: those of the incoming state's diff
      against the current state. */
  function Posted(incoming: Attrs, current: Attrs): Hash<string, string>
  {
    CommandsOf(Present(SchemaDiff(incoming, current)))
  }

  /** The state `process` leaves behind: the incoming state's non-nil
      values merged over the current state, then every command attribute
      reset to nil. */
  function NextState(current: Attrs, incoming: Attrs): Attrs
  {
    ResetOf(MergeOf(current, Present(incoming)), COMMAND_ATTRS)
  }

  class Dispatcher {
    const telemachusUrl: string
    const sendCommands: bool
    var currentState: ControlState
    /** The URIs handed to `Net::HTTP.get`, oldest first. */
    var requests: seq<string>
    /** The error and warning lines written to the logger. */
    ghost var log: seq<LogLine>

    /** `Dispatcher.new`: the current state is the one given, or a new empty
        one. */
    constructor (telemachusUrl: string := DEFAULT_URL, initial: ControlState? := null, sendCommands: bool := true)
      ensures this.telemachusUrl == telemachusUrl && this.sendCommands == sendCommands
      ensures initial != null ==> currentState == initial
      ensures initial == null ==> fresh(currentState) && currentState.attrs == []
      ensures requests == [] && log == []
    {
      this.telemachusUrl := telemachusUrl;
      this.sendCommands := sendCommands;
      if initial != null {
        currentState := initial;
      } else {
        currentState := new ControlState();
      }
      requests := [];
      log := [];
    }

    /** `post`: one command per present entry that has a template, keyed
        "a", "b", ... by position (an entry without a template is logged and
        still uses up its key); nil when no command results; otherwise one
        request when sending is on, a failure logged and swallowed, and
        true. */
    method Post(changes: ControlState, outcome: Outcome) returns (r: Option<bool>)
      modifies this`requests, this`log
      ensures r == PostResult(CommandsOf(Present(changes.attrs)))
      ensures requests == old(requests) + Requested(telemachusUrl, sendCommands, CommandsOf(Present(changes.attrs)))
      ensures log == old(log) + Unrecognized(Present(changes.attrs)) +
                     SendLog(telemachusUrl, sendCommands, CommandsOf(Present(changes.attrs)), outcome)
    {
      var toSend := changes.ReadPresent();
      PresentIdempotent(changes.attrs);
      var commands := BuildCommands(Present(toSend));
      if |commands| == 0 {
        return None;
      }
      var uri := telemachusUrl + "?" + EncodeForm(commands);
      if sendCommands {
        requests := requests + [uri];
        if outcome.Failed? {
          log := log + [RequestFailed(uri, outcome.message, outcome.errorClass)];
        }
      } else {
        log := log + [NotSent];
      }
      return Some(true);
    }

    /** The loop of `post`: walks the present entries in order, keeping
        `url_key` at the i-th key, storing each templated command under it
        and logging each entry that has no template. */
    method BuildCommands(entries: seq<(Attr, Value)>) returns (commands: Hash<string, string>)
      modifies this`log
      ensures commands == CommandsOf(entries)
      ensures log == old(log) + Unrecognized(entries)
    {
      commands := [];
      var urlKey := "a";
      var i := 0;
      while i < |entries|
        invariant 0 <= i <= |entries|
        invariant commands == CommandsOf(entries[..i])
        invariant urlKey == KeyOf(i)
        invariant log == old(log) + Unrecognized(entries[..i])
      {
        UnrecognizedStep(entries, i);
        commands := AddEntry(entries, i, commands, urlKey);
        SuccNext(i);
        urlKey := Succ(urlKey);
        i := i + 1;
      }
      assert entries[..i] == entries;
    }

    /** One pass of that loop: the i-th entry's command stored under
        `url_key`, or, for an entry without a template, its error line. */
    method AddEntry(entries: seq<(Attr, Value)>, i: nat, commands: Hash<string, string>, urlKey: string)
      returns (next: Hash<string, string>)
      requires i < |entries| && commands == CommandsOf(entries[..i]) && urlKey == KeyOf(i)
      modifies this`log
      ensures next == CommandsOf(entries[..i + 1])
      ensures log == old(log) + if Template(entries[i].0).None? then [UnrecognizedCommand(entries[i].0, entries[i].1)] else []
    {
      var (key, value) := entries[i];
      CommandsStep(entries, i);
      var template := Template(key);
      if template.None? {
        log := log + [UnrecognizedCommand(key, value)];
        next := commands;
      } else {
        next := Store(commands, urlKey, Fill(template.value, Render(value)));
      }
    }

    /** `process`: posts the incoming state's diff against the current
        state, then merges the incoming state into the current one and
        resets its command attributes, whatever the post did. */
    method Process(command: ControlState, outcome: Outcome) returns (sent: Option<bool>)
      modifies this`requests, this`log, currentState
      ensures currentState == old(currentState)
      ensures currentState.attrs == NextState(old(currentState.attrs), old(command.attrs))
      ensures sent == PostResult(Posted(old(command.attrs), old(currentState.attrs)))
      ensures requests == old(requests) + Requested(telemachusUrl, sendCommands, Posted(old(command.attrs), old(currentState.attrs)))
      ensures log == old(log) + Unrecognized(Present(SchemaDiff(old(command.attrs), old(currentState.attrs)))) +
                     SendLog(telemachusUrl, sendCommands, Posted(old(command.attrs), old(currentState.attrs)), outcome)
    {
      var changes := command.Diff(currentState);
      sent := Post(changes, outcome);
      Advance(command);
    }

    /** The end of `process`: `merge!` the incoming state into the current
        one, then `reset_command_attrs!`. */
    method Advance(command: ControlState)
      modifies currentState
      ensures currentState.attrs == NextState(old(currentState.attrs), old(command.attrs))
    {
      currentState.Merge(command);
      currentState.ResetCommandAttrs();
    }
  }

  // ---------------------------------------------------------------------
  // Properties of the dispatch cycle.

  /** The templates cover exactly the attributes of the current schema. */
  lemma TemplatesCoverSchema(a: Attr)
    ensures Template(a).Some? <==> IsValid(a)
  {
  }

  /** After `process` a command attribute reads nil; any other name reads
      the incoming value where that is not nil, and its old value where it
      is. */
  lemma NextStateRead(current: Attrs, incoming: Attrs, k: Attr)
    ensures ValueOf(NextState(current, incoming), k) ==
            if IsCommand(k) then Nil
            else if ValueOf(incoming, k).Nil? then ValueOf(current, k)
            else ValueOf(incoming, k)
  {
    ResetRead(MergeOf(current, Present(incoming)), COMMAND_ATTRS, k);
    IsCommandIsListed(k);
    MergeRead(current, incoming, k);
  }

  /** A `stage` press is never carried over to the next cycle. */
  lemma StageNeverKept(current: Attrs, incoming: Attrs)
    ensures ValueOf(NextState(current, incoming), Stage).Nil?
  {
    NextStateRead(current, incoming, Stage);
  }

  /** A schema attribute that reads nil in the current state is posted
      whenever an incoming state gives it a value. */
  lemma NilIsPosted(current: Attrs, incoming: Attrs, a: Attr)
    requires IsValid(a) && ValueOf(current, a).Nil? && !ValueOf(incoming, a).Nil?
    ensures var cmds := Posted(incoming, current);
            exists j | 0 <= j < |cmds| :: cmds[j].1 == Fill(Template(a).value, Render(ValueOf(incoming, a)))
  {
    assert !Eq(ValueOf(incoming, a), Nil);
    ChangeIsPosted(current, incoming, a);
    assert Posted(incoming, current) == CommandsOf(Present(SchemaDiff(incoming, current)));
  }

  /** A command attribute signalled in two successive frames is posted on
      the second as well: `process` forgets every press, so a button held
      down is sent once per frame that signals it. */
  lemma HeldPressReposted(current: Attrs, first: Attrs, second: Attrs, a: Attr)
    requires IsCommand(a) && !ValueOf(second, a).Nil?
    ensures var cmds := Posted(second, NextState(current, first));
            exists j | 0 <= j < |cmds| :: cmds[j].1 == Fill(Template(a).value, Render(ValueOf(second, a)))
  {
    NextStateRead(current, first, a);
    NilIsPosted(NextState(current, first), second, a);
  }

  /** Starting from an empty state, `process` leaves a state equal (`==`)
      to an incoming state whose command attributes read nil. */
  lemma FromEmptyEquals(incoming: Attrs)
    requires forall i | 0 <= i < |COMMAND_ATTRS| :: ValueOf(incoming, COMMAND_ATTRS[i]).Nil?
    ensures SameOn(VALID_ATTRS, NextState([], incoming), incoming)
  {
    forall i | 0 <= i < |VALID_ATTRS|
      ensures Eq(ValueOf(NextState([], incoming), VALID_ATTRS[i]), ValueOf(incoming, VALID_ATTRS[i]))
    {
      var a := VALID_ATTRS[i];
      NextStateRead([], incoming, a);
      EqIsEquivalence(ValueOf(incoming, a), Nil, Nil);
      if IsCommand(a) {
        IsCommandIsListed(a);
        var j :| 0 <= j < |COMMAND_ATTRS| && COMMAND_ATTRS[j] == a;
      }
    }
  }

  /** Every schema attribute whose incoming value is not nil and differs
      from the current value is posted, as its template filled with the
      rendered incoming value. */
  lemma ChangeIsPosted(current: Attrs, incoming: Attrs, a: Attr)
    requires IsValid(a) && !ValueOf(incoming, a).Nil?
    requires !Eq(ValueOf(incoming, a), ValueOf(current, a))
    ensures var cmds := CommandsOf(Present(SchemaDiff(incoming, current)));
            exists j | 0 <= j < |cmds| :: cmds[j].1 == Fill(Template(a).value, Render(ValueOf(incoming, a)))
  {
    SchemaFacts();
    IsValidIsSchema(a);
    var d := SchemaDiff(incoming, current);
    var p := Present(d);
    DiffRead(VALID_ATTRS, incoming, current, a);
    var m := PresentEntry(d, a);
    EntryIsPosted(p, m);
  }

  /** A name that reads a non-nil value from a hash is an entry of its
      present part. */
  lemma PresentEntry(h: Attrs, a: Attr) returns (m: nat)
    requires !ValueOf(h, a).Nil?
    ensures m < |Present(h)| && Present(h)[m] == (a, ValueOf(h, a))
  {
    assert a in Keys(h) by {
      if a !in Keys(h) {
        GetMissing(h, a, Nil);
      }
    }
    var i := IndexOf(h, a);
    GetEntry(h, i, Nil);
    assert h[i] in Present(h);
    m :| 0 <= m < |Present(h)| && Present(h)[m] == h[i];
  }

  /** A present entry with a template gives a command. */
  lemma EntryIsPosted(entries: seq<(Attr, Value)>, m: nat)
    requires m < |entries| && Template(entries[m].0).Some?
    ensures exists j | 0 <= j < |CommandsOf(entries)| :: CommandsOf(entries)[j] == CommandAt(m, entries[m])
  {
    EmittedExactly(entries);
    CommandsByPosition(entries);
    assert m in Emitted(entries);
    var j :| 0 <= j < |Emitted(entries)| && Emitted(entries)[j] == m;
    assert CommandsOf(entries)[j] == CommandAt(m, entries[m]);
  }

  /** An incoming state equal (`==`) to the current one posts nothing. */
  lemma NoChangeNoPost(current: Attrs, incoming: Attrs)
    requires SameOn(VALID_ATTRS, incoming, current)
    ensures CommandsOf(Present(SchemaDiff(incoming, current))) == []
  {
    SchemaFacts();
    DiffEmptyIffSame(VALID_ATTRS, incoming, current);
  }

  /** `post` returns nil exactly when no present entry has a template, and
      true otherwise. */
  lemma NilIffNothingTemplated(entries: seq<(Attr, Value)>)
    ensures PostResult(CommandsOf(entries)).None? <==>
            forall i | 0 <= i < |entries| :: Template(entries[i].0).None?
    ensures PostResult(CommandsOf(entries)) in {None, Some(true)}
  {
    CommandsEmpty(entries);
  }

  /** `post` makes at most one request, and makes one exactly when sending
      is on and some present entry has a template; its query carries the
      encoded commands. */
  lemma AtMostOneRequest(url: string, send: bool, entries: seq<(Attr, Value)>)
    ensures |Requested(url, send, CommandsOf(entries))| <= 1
    ensures |Requested(url, send, CommandsOf(entries))| == 1 <==>
            send && exists i | 0 <= i < |entries| :: Template(entries[i].0).Some?
    ensures forall j | 0 <= j < |Requested(url, send, CommandsOf(entries))| ::
              Requested(url, send, CommandsOf(entries))[j] == url + "?" + EncodeForm(CommandsOf(entries))
  {
    CommandsEmpty(entries);
  }

  /** With sending off, every built command set is logged as not sent and
      no request is made. */
  lemma SendingOffOnlyWarns(url: string, entries: seq<(Attr, Value)>, outcome: Outcome)
    requires exists i | 0 <= i < |entries| :: Template(entries[i].0).Some?
    ensures Requested(url, false, CommandsOf(entries)) == []
    ensures SendLog(url, false, CommandsOf(entries), outcome) == [NotSent]
  {
    CommandsEmpty(entries);
  }
}
