/** The earlier `Dispatcher`: the same diffing cycle without the guards the
    later one added. An entry without a template makes `post` raise
    (`nil.gsub`) before any request is made; every command set is sent; and
    a failed request raises out of `post` and `process`, so the current
    state is only updated after a post that returned. */
module LegacyDispatchers {
  import opened Symbols
  import opened RubyValues
  import opened OrderedHashes
  import opened Outcomes
  import opened StateOps
  import opened ControlStates
  import opened UrlKeys
  import opened FormEncoding
  import opened CommandTemplates
  import Dispatchers

  /** The message of the exception `nil.gsub` raises. */
  const NIL_GSUB: string := "undefined method `gsub' for nil:NilClass"

  /** Every entry has a template. */
  predicate Templated(entries: seq<(Attr, Value)>)
  {
    forall i | 0 <= i < |entries| :: Template(entries[i].0).Some?
  }

  /** What the loop of `post` ends with: the commands, or the exception
      raised at the first entry without a template. */
  function LegacyCommands(entries: seq<(Attr, Value)>): Result<Hash<string, string>>
  {
    if Templated(entries) then Ok(CommandsOf(entries)) else Err(NoMethodError(NIL_GSUB))
  }

  /** What `post` returns, or the exception it raises. */
  function LegacyPost(entries: seq<(Attr, Value)>, outcome: Dispatchers.Outcome): Result<Option<bool>>
  {
    match LegacyCommands(entries)
    case Err(e) => Err(e)
    case Ok(cmds) =>
      if cmds == [] then Ok(None)
      else if outcome.Failed? then Err(TransportError(outcome.message, outcome.errorClass))
      else Ok(Some(true))
  }

  /** The requests `post` makes: one whenever it built any command. */
  function LegacyRequested(url: string, entries: seq<(Attr, Value)>): seq<string>
  {
    match LegacyCommands(entries)
    case Err(_) => []
    case Ok(cmds) => if cmds == [] then [] else [Dispatchers.RequestUri(url, cmds)]
  }

  class LegacyDispatcher {
    const telemachusUrl: string
    var currentState: ControlState
    /** The URIs handed to `Net::HTTP.get`, oldest first. */
    var requests: seq<string>

    /** `Dispatcher.new`: the current state is the one given, or a new empty
        one. */
    constructor (telemachusUrl: string := Dispatchers.DEFAULT_URL, initial: ControlState? := null)
      ensures this.telemachusUrl == telemachusUrl
      ensures initial != null ==> currentState == initial
      ensures initial == null ==> fresh(currentState) && currentState.attrs == []
      ensures requests == []
    {
      this.telemachusUrl := telemachusUrl;
      if initial != null {
        currentState := initial;
      } else {
        currentState := new ControlState();
      }
      requests := [];
    }

    /** `post`: the commands of the present entries keyed "a", "b", ...; a
        NoMethodError at the first entry without a template; nil when there
        is nothing to send; otherwise one request, whose failure is raised,
        and true. */
    method Post(changes: ControlState, outcome: Dispatchers.Outcome) returns (r: Result<Option<bool>>)
      modifies this`requests
      ensures r == LegacyPost(Present(changes.attrs), outcome)
      ensures requests == old(requests) + LegacyRequested(telemachusUrl, Present(changes.attrs))
    {
      var toSend := changes.ReadPresent();
      PresentIdempotent(changes.attrs);
      var built := BuildCommands(Present(toSend));
      if built.Err? {
        return Err(built.error);
      }
      var commands := built.value;
      if |commands| == 0 {
        return Ok(None);
      }
      var uri := telemachusUrl + "?" + EncodeForm(commands);
      requests := requests + [uri];
      if outcome.Failed? {
        return Err(TransportError(outcome.message, outcome.errorClass));
      }
      return Ok(Some(true));
    }

    /** The loop of `post`: keeps `url_key` at the i-th key and stores each
        entry's command under it, until an entry has no template. */
    method BuildCommands(entries: seq<(Attr, Value)>) returns (r: Result<Hash<string, string>>)
      ensures r == LegacyCommands(entries)
    {
      var commands: Hash<string, string> := [];
      var urlKey := "a";
      var i := 0;
      while i < |entries|
        invariant 0 <= i <= |entries|
        invariant Templated(entries[..i])
        invariant commands == CommandsOf(entries[..i])
        invariant urlKey == KeyOf(i)
      {
        var (key, value) := entries[i];
        var template := Template(key);
        if template.None? {
          assert !Templated(entries) by {
            assert Template(entries[i].0).None?;
          }
          return Err(NoMethodError(NIL_GSUB));
        }
        TemplatedStep(entries, i);
        CommandsStep(entries, i);
        commands := Store(commands, urlKey, Fill(template.value, Render(value)));
        SuccNext(i);
        urlKey := Succ(urlKey);
        i := i + 1;
      }
      assert entries[..i] == entries;
      return Ok(commands);
    }

    /** `process`: posts the diff; only when `post` returns does the
        incoming state get merged in and the command attributes reset. */
    method Process(command: ControlState, outcome: Dispatchers.Outcome) returns (sent: Result<Option<bool>>)
      modifies this`requests, currentState
      ensures currentState == old(currentState)
      ensures var entries := Present(SchemaDiff(old(command.attrs), old(currentState.attrs)));
              sent == LegacyPost(entries, outcome) &&
              requests == old(requests) + LegacyRequested(telemachusUrl, entries)
      ensures sent.Err? ==> currentState.attrs == old(currentState.attrs)
      ensures sent.Ok? ==> currentState.attrs == Dispatchers.NextState(old(currentState.attrs), old(command.attrs))
    {
      ghost var incoming, current := command.attrs, currentState.attrs;
      var changes := command.Diff(currentState);
      ghost var entries := Present(SchemaDiff(incoming, current));
      assert Present(changes.attrs) == entries;
      sent := Post(changes, outcome);
      assert sent == LegacyPost(entries, outcome);
      assert requests == old(requests) + LegacyRequested(telemachusUrl, entries);
      if sent.Err? {
        return;
      }
      Advance(command);
    }

    /** The end of `process`: `merge!` the incoming state into the current
        one, then `reset_command_attrs!`. */
    method Advance(command: ControlState)
      modifies currentState
      ensures currentState.attrs == Dispatchers.NextState(old(currentState.attrs), old(command.attrs))
    {
      currentState.Merge(command);
      currentState.ResetCommandAttrs();
    }
  }

  // ---------------------------------------------------------------------
  // Properties of the earlier dispatch cycle.

  /** The templated prefix grows by one templated entry. */
  lemma TemplatedStep(entries: seq<(Attr, Value)>, i: nat)
    requires i < |entries| && Templated(entries[..i]) && Template(entries[i].0).Some?
    ensures Templated(entries[..i + 1])
  {
    assert forall j | 0 <= j < i :: entries[..i + 1][j] == entries[..i][j];
  }

  /** With every entry templated, the commands are the entries' commands in
      order, keyed "a", "b", ... by position. */
  lemma KeysByPosition(entries: seq<(Attr, Value)>)
    requires Templated(entries)
    ensures LegacyCommands(entries).Ok?
    ensures |LegacyCommands(entries).value| == |entries|
    ensures forall i | 0 <= i < |entries| ::
              LegacyCommands(entries).value[i] == (KeyOf(i), Fill(Template(entries[i].0).value, Render(entries[i].1)))
  {
    AllTemplated(entries);
  }

  /** An entry without a template makes `post` raise NoMethodError, and no
      request is made. */
  lemma UntemplatedRaises(entries: seq<(Attr, Value)>, outcome: Dispatchers.Outcome, url: string, i: nat)
    requires i < |entries| && Template(entries[i].0).None?
    ensures LegacyPost(entries, outcome) == Err(NoMethodError(NIL_GSUB))
    ensures LegacyRequested(url, entries) == []
  {
    assert !Templated(entries);
  }

  /** `post` returns nil exactly when it is given no present entries and
      raises nothing. */
  lemma NothingToSend(entries: seq<(Attr, Value)>, outcome: Dispatchers.Outcome)
    ensures LegacyPost(entries, outcome) == Ok(None) <==> entries == []
  {
    if Templated(entries) {
      CommandsEmpty(entries);
      if entries != [] {
        assert Template(entries[0].0).Some?;
      }
    }
  }

  /** Where the earlier dispatcher returns normally, the later one (with
      sending on) makes the same request, returns the same value and logs
      no error. */
  lemma AgreesWithDispatcher(url: string, entries: seq<(Attr, Value)>, outcome: Dispatchers.Outcome)
    requires LegacyPost(entries, outcome).Ok?
    ensures Templated(entries)
    ensures LegacyPost(entries, outcome).value == Dispatchers.PostResult(CommandsOf(entries))
    ensures LegacyRequested(url, entries) == Dispatchers.Requested(url, true, CommandsOf(entries))
    ensures Dispatchers.Unrecognized(entries) == []
    ensures Dispatchers.SendLog(url, true, CommandsOf(entries), outcome) == []
  {
    NoneUnrecognized(entries);
  }

  /** A templated sequence logs no unrecognized command. */
  lemma {:induction false} NoneUnrecognized(entries: seq<(Attr, Value)>)
    requires Templated(entries)
    ensures Dispatchers.Unrecognized(entries) == []
    decreases |entries|
  {
    if entries != [] {
      var n := |entries| - 1;
      assert Templated(entries[..n]);
      NoneUnrecognized(entries[..n]);
    }
  }
}
