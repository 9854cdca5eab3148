/** The operations of a panel state, on the value of its attribute hash.
    Both state classes (the older `ControlMessage` and the current
    `ControlState`) use these, each with its own list of valid attributes. */
module StateOps {
  import opened Symbols
  import opened RubyValues
  import opened OrderedHashes
  import opened Outcomes

  type Attrs = Hash<Attr, Value>

  /** The exception `read` and `write` raise for a name outside the schema. */
  function UnknownAttribute(a: Attr): Error
  {
    ArgumentError("unknown attribute :" + Name(a))
  }

  /** `@attrs[a]`: nil for a name the hash does not hold. */
  function ValueOf(h: Attrs, a: Attr): Value
  {
    Get(h, a, Nil)
  }

  /** `read_present`: the entries whose value is not nil, in insertion order. */
  function Present(h: Attrs): (r: Attrs)
    ensures forall p :: p in r <==> p in h && !p.1.Nil?
  {
    if h == [] then []
    else
      var rest := Present(h[1..]);
      if h[0].1.Nil? then rest
      else
        assert forall i | 0 <= i < |rest| :: rest[i].0 != h[0].0 by {
          forall i | 0 <= i < |rest|
            ensures rest[i].0 != h[0].0
          {
            assert rest[i] in h[1..];
          }
        }
        [h[0]] + rest
  }

  /** `diff`: for each valid attribute in the given (canonical) order, an
      entry holding this state's value where the two states' values differ. */
  function DiffOf(valid: seq<Attr>, mine: Attrs, theirs: Attrs): (r: Attrs)
    requires Distinct(valid)
    ensures forall i | 0 <= i < |r| :: r[i].0 in valid
    decreases |valid|
  {
    if valid == [] then []
    else
      var init := DiffOf(valid[..|valid| - 1], mine, theirs);
      var a := valid[|valid| - 1];
      if Eq(ValueOf(mine, a), ValueOf(theirs, a)) then init
      else
        assert forall i | 0 <= i < |init| :: init[i].0 != a by {
          forall i | 0 <= i < |init|
            ensures init[i].0 != a
          {
            var j :| 0 <= j < |valid| - 1 && valid[j] == init[i].0;
          }
        }
        init + [(a, ValueOf(mine, a))]
  }

  /** `==`: every valid attribute reads equal, nil included. */
  predicate SameOn(valid: seq<Attr>, x: Attrs, y: Attrs)
  {
    forall i | 0 <= i < |valid| :: Eq(ValueOf(x, valid[i]), ValueOf(y, valid[i]))
  }

  /** Agreement on a prefix of the names extends by one agreeing name. */
  lemma SameOnStep(valid: seq<Attr>, x: Attrs, y: Attrs, i: nat)
    requires i < |valid| && SameOn(valid[..i], x, y)
    requires Eq(ValueOf(x, valid[i]), ValueOf(y, valid[i]))
    ensures SameOn(valid[..i + 1], x, y)
  {
    assert forall k | 0 <= k < i :: valid[..i + 1][k] == valid[..i][k];
  }

  /** One name that reads differently is enough for `==` to fail. */
  lemma NotSameAt(valid: seq<Attr>, x: Attrs, y: Attrs, i: nat)
    requires i < |valid| && !Eq(ValueOf(x, valid[i]), ValueOf(y, valid[i]))
    ensures !SameOn(valid, x, y)
  {
  }

  /** `merge!` of the entries `es`, one `h[k] = v` after another. */
  function MergeOf(h: Attrs, es: seq<(Attr, Value)>): Attrs
    decreases |es|
  {
    if es == [] then h else MergeOf(Store(h, es[0].0, es[0].1), es[1..])
  }

  /** `reset_command_attrs!`: `h[c] = nil` for each command attribute c, in order. */
  function ResetOf(h: Attrs, commands: seq<Attr>): Attrs
    decreases |commands|
  {
    if commands == [] then h
    else Store(ResetOf(h, commands[..|commands| - 1]), commands[|commands| - 1], Nil)
  }

  // ---------------------------------------------------------------------
  // Properties of the operations.

  /** Appending a new key does not change what the other keys read. */
  lemma ReadAppend(h: Attrs, a: Attr, v: Value, k: Attr)
    requires a !in Keys(h)
    ensures UniqueKeys(h + [(a, v)])
    ensures ValueOf(h + [(a, v)], k) == if k == a then v else ValueOf(h, k)
  {
    StoreNew(h, a, v);
    GetStore(h, a, v, k, Nil);
  }

  /** Every entry of `r` names a key of `h`. */
  predicate KeysIn(h: Attrs, r: seq<(Attr, Value)>)
  {
    forall i | 0 <= i < |r| :: r[i].0 in Keys(h)
  }

  /** The entries of `r` stand in `h` in the order they have in `r`. */
  predicate InOrder(h: Attrs, r: seq<(Attr, Value)>)
    requires KeysIn(h, r)
  {
    forall i, j | 0 <= i < j < |r| :: IndexOf(h, r[i].0) < IndexOf(h, r[j].0)
  }

  /** Every entry `read_present` returns is a key of the hash. */
  lemma PresentKeys(h: Attrs)
    ensures KeysIn(h, Present(h))
  {
    forall i | 0 <= i < |Present(h)|
      ensures Present(h)[i].0 in Keys(h)
    {
      var p := Present(h)[i];
      assert p in h;
      var j :| 0 <= j < |h| && h[j] == p;
      assert Keys(h)[j] == p.0;
    }
  }

  /** Entries in order within the tail of a hash are in order within the hash. */
  lemma InOrderTail(h: Attrs, r: Attrs)
    requires h != [] && KeysIn(h[1..], r) && InOrder(h[1..], r)
    ensures KeysIn(h, r) && InOrder(h, r)
  {
    forall i | 0 <= i < |r|
      ensures r[i].0 in Keys(h) && IndexOf(h, r[i].0) == 1 + IndexOf(h[1..], r[i].0)
    {
      IndexOfTail(h, r[i].0);
    }
  }

  /** Putting the first entry of a hash in front of entries in order within
      its tail keeps them in order. */
  lemma InOrderCons(h: Attrs, r: seq<(Attr, Value)>)
    requires h != [] && KeysIn(h, r) && InOrder(h, r)
    requires forall i | 0 <= i < |r| :: IndexOf(h, r[i].0) > 0
    ensures KeysIn(h, [h[0]] + r) && InOrder(h, [h[0]] + r)
  {
    var c := [h[0]] + r;
    assert Keys(h)[0] == h[0].0;
    forall i, j | 0 <= i < j < |c|
      ensures IndexOf(h, c[i].0) < IndexOf(h, c[j].0)
    {
      if i == 0 {
        assert IndexOf(h, r[j - 1].0) > 0;
      } else {
        assert IndexOf(h, r[i - 1].0) < IndexOf(h, r[j - 1].0);
      }
    }
  }

  /** `read_present` keeps the insertion order: the entries it returns stand
      in the same order in the original hash. */
  lemma {:induction false} PresentInOrder(h: Attrs)
    ensures KeysIn(h, Present(h)) && InOrder(h, Present(h))
  {
    if h != [] {
      var t: Attrs := h[1..];
      var rest := Present(t);
      PresentInOrder(t);
      InOrderTail(h, rest);
      if !h[0].1.Nil? {
        forall i | 0 <= i < |rest|
          ensures IndexOf(h, rest[i].0) > 0
        {
          IndexOfTail(h, rest[i].0);
        }
        InOrderCons(h, rest);
      }
    }
  }

  /** `read_present` returns the whole hash exactly when no value is nil. */
  lemma {:induction false} PresentAll(h: Attrs)
    ensures Present(h) == h <==> forall i | 0 <= i < |h| :: !h[i].1.Nil?
  {
    if h != [] {
      var t: Attrs := h[1..];
      PresentAll(t);
      if forall i | 0 <= i < |h| :: !h[i].1.Nil? {
        assert forall i | 0 <= i < |t| :: !t[i].1.Nil? by {
          forall i | 0 <= i < |t|
            ensures !t[i].1.Nil?
          {
            assert t[i] == h[i + 1];
          }
        }
        assert [h[0]] + t == h;
      }
      if Present(h) == h {
        forall i | 0 <= i < |h|
          ensures !h[i].1.Nil?
        {
          assert h[i] in Present(h);
        }
      }
    }
  }

  /** Filtering out nil entries a second time changes nothing. */
  lemma {:induction false} PresentIdempotent(h: Attrs)
    ensures Present(Present(h)) == Present(h)
  {
    if h != [] {
      var t: Attrs := h[1..];
      PresentIdempotent(t);
      if !h[0].1.Nil? {
        assert Present(h)[1..] == Present(t);
      }
    }
  }

  /** `read_present` drops only nil entries, so every name reads the same
      from it as from the whole hash. */
  lemma ReadPresent(h: Attrs, k: Attr)
    ensures ValueOf(Present(h), k) == ValueOf(h, k)
  {
    var r := Present(h);
    if k in Keys(r) {
      var i := IndexOf(r, k);
      assert r[i] in h;
      var j :| 0 <= j < |h| && h[j] == r[i];
      GetEntry(r, i, Nil);
      GetEntry(h, j, Nil);
    } else if k in Keys(h) {
      var j := IndexOf(h, k);
      assert h[j] !in r;
    }
  }

  /** What the diff reads: this state's value where the two states' values
      differ on a valid attribute, nil everywhere else. */
  lemma {:induction false} DiffRead(valid: seq<Attr>, mine: Attrs, theirs: Attrs, k: Attr)
    requires Distinct(valid)
    ensures ValueOf(DiffOf(valid, mine, theirs), k) ==
            if k in valid && !Eq(ValueOf(mine, k), ValueOf(theirs, k)) then ValueOf(mine, k) else Nil
    decreases |valid|
  {
    if valid != [] {
      var front := valid[..|valid| - 1];
      var a := valid[|valid| - 1];
      var init := DiffOf(front, mine, theirs);
      DiffRead(front, mine, theirs, k);
      assert valid == front + [a];
      assert k in valid <==> k in front || k == a;
      if !Eq(ValueOf(mine, a), ValueOf(theirs, a)) {
        assert a !in Keys(init) by {
          forall i | 0 <= i < |init|
            ensures Keys(init)[i] != a
          {
            var j :| 0 <= j < |front| && front[j] == init[i].0;
          }
        }
        ReadAppend(init, a, ValueOf(mine, a), k);
      }
      if k == a {
        assert a !in front;
      }
    }
  }

  /** One step of building the diff attribute by attribute with `h[k] = v`:
      a differing attribute is a new key, so writing it appends it. */
  lemma DiffStep(valid: seq<Attr>, mine: Attrs, theirs: Attrs, i: nat)
    requires Distinct(valid) && i < |valid|
    ensures Distinct(valid[..i]) && Distinct(valid[..i + 1])
    ensures var init := DiffOf(valid[..i], mine, theirs);
            var a := valid[i];
            DiffOf(valid[..i + 1], mine, theirs) ==
              if Eq(ValueOf(mine, a), ValueOf(theirs, a)) then init else Store(init, a, ValueOf(mine, a))
  {
    var pre, pre1 := valid[..i], valid[..i + 1];
    assert Distinct(pre) && Distinct(pre1) by {
      assert forall j | 0 <= j <= i :: pre1[j] == valid[j];
    }
    var init := DiffOf(pre, mine, theirs);
    var a := valid[i];
    assert pre1[..|pre1| - 1] == pre && pre1[|pre1| - 1] == a;
    assert a !in Keys(init) by {
      forall j | 0 <= j < |init|
        ensures Keys(init)[j] != a
      {
        var m :| 0 <= m < i && pre[m] == init[j].0;
      }
    }
    if !Eq(ValueOf(mine, a), ValueOf(theirs, a)) {
      StoreNew(init, a, ValueOf(mine, a));
    }
  }

  /** A state's diff with itself is empty. */
  lemma {:induction false} DiffSelf(valid: seq<Attr>, s: Attrs)
    requires Distinct(valid)
    ensures DiffOf(valid, s, s) == []
    decreases |valid|
  {
    if valid != [] {
      DiffSelf(valid[..|valid| - 1], s);
      EqIsEquivalence(ValueOf(s, valid[|valid| - 1]), Nil, Nil);
    }
  }

  /** The diff is empty exactly when the two states are equal (`==`). */
  lemma {:induction false} DiffEmptyIffSame(valid: seq<Attr>, mine: Attrs, theirs: Attrs)
    requires Distinct(valid)
    ensures DiffOf(valid, mine, theirs) == [] <==> SameOn(valid, mine, theirs)
    decreases |valid|
  {
    if valid != [] {
      var front := valid[..|valid| - 1];
      var a := valid[|valid| - 1];
      DiffEmptyIffSame(front, mine, theirs);
      assert valid == front + [a];
      assert forall b | b in valid :: b in front || b == a;
    }
  }

  /** What a merge reads, for entries with distinct names: the merged entry's
      value for a name it holds, the old value otherwise. */
  lemma {:induction false} MergeReadEntries(h: Attrs, es: Attrs, k: Attr)
    ensures ValueOf(MergeOf(h, es), k) == if k in Keys(es) then Get(es, k, Nil) else ValueOf(h, k)
    decreases |es|
  {
    if es != [] {
      var t: Attrs := es[1..];
      MergeReadEntries(Store(h, es[0].0, es[0].1), t, k);
      GetStore(h, es[0].0, es[0].1, k, Nil);
      if k == es[0].0 {
        assert Keys(es)[0] == k;
        assert k !in Keys(t) by {
          forall j | 0 <= j < |t|
            ensures Keys(t)[j] != k
          {
            assert t[j] == es[j + 1];
          }
        }
      } else {
        GetTail(es, k, Nil);
      }
    }
  }

  /** `merge!` is a right-biased overwrite that ignores nil: a name the other
      state holds a non-nil value for reads that value, every other name keeps
      its old value. */
  lemma MergeRead(h: Attrs, other: Attrs, k: Attr)
    ensures ValueOf(MergeOf(h, Present(other)), k) ==
            if ValueOf(other, k).Nil? then ValueOf(h, k) else ValueOf(other, k)
  {
    var p := Present(other);
    MergeReadEntries(h, p, k);
    ReadPresent(other, k);
    if k in Keys(p) {
      var i := IndexOf(p, k);
      assert p[i] in p;
      GetEntry(p, i, Nil);
    }
  }

  /** A name is in a non-empty list exactly when it is the last one or in
      the part before it. */
  lemma InLastOrFront(s: seq<Attr>, k: Attr)
    requires s != []
    ensures k in s <==> k == s[|s| - 1] || k in s[..|s| - 1]
  {
    assert s == s[..|s| - 1] + [s[|s| - 1]];
  }

  /** `reset_command_attrs!` makes every command attribute read nil and
      leaves every other name as it was. */
  lemma {:induction false} ResetRead(h: Attrs, commands: seq<Attr>, k: Attr)
    ensures ValueOf(ResetOf(h, commands), k) == if k in commands then Nil else ValueOf(h, k)
    decreases |commands|
  {
    if commands != [] {
      var front := commands[..|commands| - 1];
      var c := commands[|commands| - 1];
      ResetRead(h, front, k);
      var prev := ResetOf(h, front);
      assert ResetOf(h, commands) == Store(prev, c, Nil);
      GetStore(prev, c, Nil, k, Nil);
      InLastOrFront(commands, k);
    }
  }

  /** Merging the non-nil part of `mine.diff(theirs)` into `theirs` brings
      every attribute `mine` holds a value for up to date. */
  lemma MergeDiffCatchesUp(valid: seq<Attr>, mine: Attrs, theirs: Attrs, a: Attr)
    requires Distinct(valid) && a in valid && !ValueOf(mine, a).Nil?
    ensures Eq(ValueOf(MergeOf(theirs, Present(DiffOf(valid, mine, theirs))), a), ValueOf(mine, a))
  {
    MergeRead(theirs, DiffOf(valid, mine, theirs), a);
    DiffRead(valid, mine, theirs, a);
    EqIsEquivalence(ValueOf(mine, a), ValueOf(theirs, a), Nil);
  }
}
