/** The command strings `Dispatcher#post` builds from a state's present
    entries: one command template per attribute of the current schema, the
    value rendered into the template's `%s`, and a query key per entry. */
module CommandTemplates {
  import opened Decimal
  import opened Symbols
  import opened RubyValues
  import opened OrderedHashes
  import opened Outcomes
  import opened UrlKeys

  /** `@command_templates[a]`: nil for a name without a template (the older
      `*_enable` names and anything outside the schema). */
  function Template(a: Attr): Option<string>
  {
    match a
    case Throttle => Some("f.setThrottle[%s]")
    case AutopilotMode => Some("mj.%s")
    case Stage => Some("f.stage")
    case Sas => Some("f.sas[%s]")
    case Rcs => Some("f.rcs[%s]")
    case Lights => Some("f.light[%s]")
    case Gear => Some("f.gear[%s]")
    case Brakes => Some("f.brake[%s]")
    case ActionGroup(n) => if 1 <= n <= 9 then Some("f.ag" + [DigitChar(n)]) else None
    case _ => None
  }

  /** The text put into a template: `True`/`False` for a Boolean, `to_s`
      of anything else. */
  function Render(v: Value): string
  {
    match v
    case Bool(b) => if b then "True" else "False"
    case _ => ToS(v)
  }

  /** `t` holds the placeholder `%s` at position i. */
  predicate PlaceholderAt(t: string, i: nat)
  {
    i + 1 < |t| && t[i] == '%' && t[i + 1] == 's'
  }

  predicate HasPlaceholder(t: string)
  {
    exists i | 0 <= i < |t| :: PlaceholderAt(t, i)
  }

  /** `t.gsub(/%s/, s)`: every `%s` of the template, left to right, replaced
      by `s`. */
  function Fill(t: string, s: string): string
    decreases |t|
  {
    if t == [] then []
    else if PlaceholderAt(t, 0) then s + Fill(t[2..], s)
    else [t[0]] + Fill(t[1..], s)
  }

  /** A template without a placeholder is its own command, whatever the value. */
  lemma {:induction false} FillLiteral(t: string, s: string)
    requires !HasPlaceholder(t)
    ensures Fill(t, s) == t
    decreases |t|
  {
    if t != [] {
      assert !PlaceholderAt(t, 0);
      assert !HasPlaceholder(t[1..]) by {
        forall i | 0 <= i < |t| - 1 && PlaceholderAt(t[1..], i)
          ensures false
        {
          assert PlaceholderAt(t, i + 1);
        }
      }
      FillLiteral(t[1..], s);
    }
  }

  /** A template with one placeholder, `pre + "%s" + post`, becomes
      `pre + s + post`. */
  lemma {:induction false} FillOne(pre: string, post: string, s: string)
    requires !HasPlaceholder(pre + "%") && !HasPlaceholder(post)
    ensures Fill(pre + "%s" + post, s) == pre + s + post
    decreases |pre|
  {
    var t := pre + "%s" + post;
    if pre == [] {
      assert t[2..] == post;
      FillLiteral(post, s);
    } else {
      assert !PlaceholderAt(pre + "%", 0);
      assert !HasPlaceholder(pre[1..] + "%") by {
        forall i | 0 <= i < |pre| && PlaceholderAt(pre[1..] + "%", i)
          ensures false
        {
          assert PlaceholderAt(pre + "%", i + 1);
        }
      }
      assert t[1..] == pre[1..] + "%s" + post;
      FillOne(pre[1..], post, s);
    }
  }

  /** Text without '%' holds no placeholder. */
  lemma NoPercent(t: string)
    requires forall i | 0 <= i < |t| :: t[i] != '%'
    ensures !HasPlaceholder(t)
  {
  }

  /** `pre + "%s" + post` with no '%' in `pre` or `post` becomes
      `pre + s + post`. */
  lemma FillBetween(pre: string, post: string, s: string)
    requires forall i | 0 <= i < |pre| :: pre[i] != '%'
    requires forall i | 0 <= i < |post| :: post[i] != '%'
    ensures Fill(pre + "%s" + post, s) == pre + s + post
  {
    assert !HasPlaceholder(pre + "%") by {
      forall i | 0 <= i < |pre + "%"|
        ensures !PlaceholderAt(pre + "%", i)
      {
      }
    }
    NoPercent(post);
    FillOne(pre, post, s);
  }

  /** The text before a template's placeholder, or the whole of a template
      that has none. */
  function Head(a: Attr): string
  {
    match a
    case Throttle => "f.setThrottle["
    case AutopilotMode => "mj."
    case Sas => "f.sas["
    case Rcs => "f.rcs["
    case Lights => "f.light["
    case Gear => "f.gear["
    case Brakes => "f.brake["
    case _ => if Template(a).Some? then Template(a).value else ""
  }

  /** The text after a template's placeholder. */
  function Tail(a: Attr): string
  {
    match a
    case Throttle | Sas | Rcs | Lights | Gear | Brakes => "]"
    case _ => ""
  }

  /** The valueless templates: `stage` and the action groups. */
  predicate Valueless(a: Attr)
  {
    a == Stage || a.ActionGroup?
  }

  /** A template with a value is its head, the placeholder and its tail,
      with no other '%'. */
  lemma ValuedTemplate(a: Attr)
    requires Template(a).Some? && !Valueless(a)
    ensures Template(a).value == Head(a) + "%s" + Tail(a)
    ensures forall i | 0 <= i < |Head(a)| :: Head(a)[i] != '%'
    ensures forall i | 0 <= i < |Tail(a)| :: Tail(a)[i] != '%'
  {
  }

  /** A valueless template holds no '%' at all. */
  lemma ValuelessTemplate(a: Attr)
    requires Template(a).Some? && Valueless(a)
    ensures Template(a).value == Head(a)
    ensures forall i | 0 <= i < |Head(a)| :: Head(a)[i] != '%'
  {
  }

  /** Every template is a fixed literal (stage and the action groups) or
      holds one placeholder between text without '%'; so the command of a
      valueless attribute is its template whatever the value, and any other
      command is the template with the rendered value in place of `%s`. */
  lemma TemplateShape(a: Attr, s: string)
    requires Template(a).Some?
    ensures Valueless(a) ==> Template(a).value == Head(a) && !HasPlaceholder(Head(a))
    ensures !Valueless(a) ==> Template(a).value == Head(a) + "%s" + Tail(a)
    ensures Fill(Template(a).value, s) == if Valueless(a) then Head(a) else Head(a) + s + Tail(a)
  {
    if Valueless(a) {
      ValuelessTemplate(a);
      NoPercent(Head(a));
      FillLiteral(Head(a), s);
    } else {
      ValuedTemplate(a);
      FillBetween(Head(a), Tail(a), s);
    }
  }

  /** The command for the i-th present entry, which has a template. */
  function CommandAt(i: nat, e: (Attr, Value)): (string, string)
    requires Template(e.0).Some?
  {
    (KeyOf(i), Fill(Template(e.0).value, Render(e.1)))
  }

  /** The positions of the entries that have a template, in order. */
  function Emitted(entries: seq<(Attr, Value)>): (r: seq<nat>)
    ensures forall j | 0 <= j < |r| :: r[j] < |entries| && Template(entries[r[j]].0).Some?
    decreases |entries|
  {
    if entries == [] then []
    else
      var n := |entries| - 1;
      var init := Emitted(entries[..n]);
      if Template(entries[n].0).None? then init else init + [n]
  }

  /** The `commands` hash `post` builds from the present entries: the i-th
      entry, when it has a template, gives the command under key `KeyOf(i)`;
      an entry without one gives nothing but still uses up its key. */
  function CommandsOf(entries: seq<(Attr, Value)>): (r: Hash<string, string>)
    ensures forall j | 0 <= j < |r| :: IsKey(r[j].0) && KeyIndex(r[j].0) < |entries|
    decreases |entries|
  {
    if entries == [] then []
    else
      var n := |entries| - 1;
      var init := CommandsOf(entries[..n]);
      if Template(entries[n].0).None? then init
      else
        var c := CommandAt(n, entries[n]);
        KeyIndexOfKey(n);
        assert UniqueKeys(init + [c]) by {
          forall j | 0 <= j < |init|
            ensures init[j].0 != c.0
          {
          }
        }
        init + [c]
  }

  /** Each command is the command of the entry at the matching emitted
      position, so the commands follow the entries' order. */
  lemma {:induction false} CommandsByPosition(entries: seq<(Attr, Value)>)
    ensures |CommandsOf(entries)| == |Emitted(entries)|
    ensures forall j | 0 <= j < |Emitted(entries)| ::
              CommandsOf(entries)[j] == CommandAt(Emitted(entries)[j], entries[Emitted(entries)[j]])
    decreases |entries|
  {
    if entries != [] {
      var n := |entries| - 1;
      var front := entries[..n];
      CommandsByPosition(front);
      forall j | 0 <= j < |Emitted(front)|
        ensures entries[Emitted(front)[j]] == front[Emitted(front)[j]]
      {
      }
    }
  }

  /** The emitted positions are exactly the entries with a template, in
      strictly increasing order. */
  lemma {:induction false} EmittedExactly(entries: seq<(Attr, Value)>)
    ensures forall j, k | 0 <= j < k < |Emitted(entries)| :: Emitted(entries)[j] < Emitted(entries)[k]
    ensures forall i | 0 <= i < |entries| :: i in Emitted(entries) <==> Template(entries[i].0).Some?
    decreases |entries|
  {
    if entries != [] {
      var n := |entries| - 1;
      var front := entries[..n];
      EmittedExactly(front);
      forall i | 0 <= i < n
        ensures entries[i] == front[i]
      {
      }
    }
  }

  /** No command is built exactly when no present entry has a template;
      then `post` returns nil without a request. */
  lemma CommandsEmpty(entries: seq<(Attr, Value)>)
    ensures CommandsOf(entries) == [] <==> forall i | 0 <= i < |entries| :: Template(entries[i].0).None?
  {
    CommandsByPosition(entries);
    EmittedExactly(entries);
    if CommandsOf(entries) != [] {
      assert Emitted(entries)[0] in Emitted(entries);
    }
  }

  /** Extending the entries by one extends the commands by at most that
      entry's command: the step of `post`'s loop. */
  lemma CommandsStep(entries: seq<(Attr, Value)>, i: nat)
    requires i < |entries|
    ensures CommandsOf(entries[..i + 1]) ==
            if Template(entries[i].0).None? then CommandsOf(entries[..i])
            else Store(CommandsOf(entries[..i]), KeyOf(i), Fill(Template(entries[i].0).value, Render(entries[i].1)))
  {
    var pre := entries[..i + 1];
    assert pre[..i] == entries[..i];
    if Template(entries[i].0).Some? {
      assert KeyOf(i) !in Keys(CommandsOf(entries[..i])) by {
        KeyIndexOfKey(i);
      }
      StoreNew(CommandsOf(entries[..i]), KeyOf(i), Fill(Template(entries[i].0).value, Render(entries[i].1)));
    }
  }

  /** When every entry has a template the i-th command is keyed `KeyOf(i)`:
      the keys are "a", "b", "c", ... one per present entry. */
  lemma AllTemplated(entries: seq<(Attr, Value)>)
    requires forall i | 0 <= i < |entries| :: Template(entries[i].0).Some?
    ensures |CommandsOf(entries)| == |entries|
    ensures forall i | 0 <= i < |entries| :: CommandsOf(entries)[i] == CommandAt(i, entries[i])
  {
    CommandsByPosition(entries);
    EmittedExactly(entries);
    EmittedIdentity(entries, Emitted(entries));
  }

  /** A strictly increasing list of all positions below n is 0, 1, ..., n-1. */
  lemma EmittedIdentity(entries: seq<(Attr, Value)>, e: seq<nat>)
    requires forall j, k | 0 <= j < k < |e| :: e[j] < e[k]
    requires forall j | 0 <= j < |e| :: e[j] < |entries|
    requires forall i | 0 <= i < |entries| :: i in e
    ensures |e| == |entries| && forall i | 0 <= i < |e| :: e[i] == i
  {
    var n := |entries|;
    forall j | 0 <= j < |e|
      ensures j <= e[j]
    {
      MonotoneFloor(e, j);
    }
    forall j | 0 <= j < |e|
      ensures e[j] <= j + (n - |e|)
    {
      MonotoneCeiling(e, j, n);
    }
    if |e| > n {
      MonotoneFloor(e, n);
    }
    if |e| < n {
      CountBound(e, n);
    }
  }

  lemma {:induction false} MonotoneFloor(e: seq<nat>, j: nat)
    requires forall a, b | 0 <= a < b < |e| :: e[a] < e[b]
    requires j < |e|
    ensures j <= e[j]
  {
    if j > 0 {
      MonotoneFloor(e, j - 1);
    }
  }

  lemma {:induction false} MonotoneCeiling(e: seq<nat>, j: nat, n: nat)
    requires forall a, b | 0 <= a < b < |e| :: e[a] < e[b]
    requires forall a | 0 <= a < |e| :: e[a] < n
    requires j < |e|
    ensures e[j] <= j + (n - |e|)
    decreases |e| - j
  {
    if j < |e| - 1 {
      MonotoneCeiling(e, j + 1, n);
    }
  }

  /** Fewer than n strictly increasing positions below n miss one of them. */
  lemma CountBound(e: seq<nat>, n: nat)
    requires forall a, b | 0 <= a < b < |e| :: e[a] < e[b]
    requires forall a | 0 <= a < |e| :: e[a] < n
    requires |e| < n
    ensures exists i | 0 <= i < n :: i !in e
  {
    var k := 0;
    while k < |e| && e[k] == k
      invariant 0 <= k <= |e|
      invariant forall a | 0 <= a < k :: e[a] == a
    {
      k := k + 1;
    }
    assert k !in e by {
      forall a | 0 <= a < |e|
        ensures e[a] != k
      {
        if a < k {
        } else {
          MonotoneFloor(e, a);
          if a == k {
          } else {
            assert e[k] < e[a];
            MonotoneFloor(e, k);
          }
        }
      }
    }
  }
}
