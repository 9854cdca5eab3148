/** `ControlState`: the panel state of the current code base, an
    insertion-ordered hash from attribute names to values. Its Ruby source is
    not part of this model; its contract is the one its specification file
    asserts, and its operations follow `ControlMessage`, which it replaced. */
module ControlStates {
  import opened Decimal
  import opened Symbols
  import opened RubyValues
  import opened OrderedHashes
  import opened Outcomes
  import opened StateOps

  const VALUE_ATTRS: seq<Attr> := [Throttle, AutopilotMode]

  /** Bitmask attribute i: stage, sas, rcs, lights, gear, brakes, then
      action groups 1 to 9. */
  function BitmaskAttr(i: nat): Attr
    requires i < 15
  {
    BITMASK_ATTRS[i]
  }

  const BITMASK_ATTRS: seq<Attr> := [
    Stage, Sas, Rcs, Lights, Gear, Brakes,
    ActionGroup(1), ActionGroup(2), ActionGroup(3), ActionGroup(4), ActionGroup(5), ActionGroup(6), ActionGroup(7), ActionGroup(8), ActionGroup(9)
  ]

  /** The schema, in canonical order. */
  const VALID_ATTRS: seq<Attr> := VALUE_ATTRS + BITMASK_ATTRS

  /** The momentary attributes: `stage`, then action groups 1 to 9, one-shot
      triggers that read nil when idle. */
  const COMMAND_ATTRS: seq<Attr> := [Stage, ActionGroup(1), ActionGroup(2), ActionGroup(3), ActionGroup(4), ActionGroup(5), ActionGroup(6), ActionGroup(7), ActionGroup(8), ActionGroup(9)]

  /** Autopilot modes by selector digit. */
  const MODES: seq<string> := [
    "prograde", "retrograde", "normalplus", "normalminus", "radialplus",
    "radialminus", "targetplus", "targetminus", "node"
  ]

  const SMARTASS_OFF: string := "smartassoff"

  /** Membership in the schema, by name. */
  predicate IsValid(a: Attr)
  {
    match a
    case Throttle | AutopilotMode | Stage | Sas | Rcs | Lights | Gear | Brakes => true
    case ActionGroup(n) => 1 <= n <= 9
    case _ => false
  }

  /** The momentary attributes, by name. */
  predicate IsCommand(a: Attr)
  {
    a == Stage || (a.ActionGroup? && 1 <= a.n <= 9)
  }

  lemma BitmaskAttrDistinct(i: nat, j: nat)
    requires i < j < 15
    ensures BitmaskAttr(i) != BitmaskAttr(j)
  {
  }

  /** The schema: the two value attributes, then the 15 bitmask attributes,
      17 distinct valid names in all. */
  lemma SchemaFacts()
    ensures |VALID_ATTRS| == 17 && Distinct(VALID_ATTRS)
    ensures forall i | 0 <= i < |VALID_ATTRS| :: IsValid(VALID_ATTRS[i])
  {
    forall i, j | 0 <= i < j < 17
      ensures VALID_ATTRS[i] != VALID_ATTRS[j]
    {
      if i >= 2 {
        BitmaskAttrDistinct(i - 2, j - 2);
      }
    }
  }

  /** The valid names are distinct. */
  lemma ValidDistinct()
    ensures Distinct(VALID_ATTRS)
  {
    SchemaFacts();
  }

  /** The ten command attributes are distinct valid names. */
  lemma CommandFacts()
    ensures |COMMAND_ATTRS| == 10 && Distinct(COMMAND_ATTRS)
    ensures forall i | 0 <= i < |COMMAND_ATTRS| :: IsValid(COMMAND_ATTRS[i])
  {
  }

  /** Where a valid name stands in the schema. */
  function SchemaIndex(a: Attr): (i: nat)
    requires IsValid(a)
    ensures i < |VALID_ATTRS| && VALID_ATTRS[i] == a
  {
    match a
    case Throttle => 0
    case AutopilotMode => 1
    case Stage => 2
    case Sas => 3
    case Rcs => 4
    case Lights => 5
    case Gear => 6
    case Brakes => 7
    case ActionGroup(n) => n + 7
  }

  /** `valid_attrs.include?(a)` is the predicate `IsValid`. */
  lemma IsValidIsSchema(a: Attr)
    ensures IsValid(a) <==> a in VALID_ATTRS
  {
    SchemaFacts();
    if IsValid(a) {
      var i := SchemaIndex(a);
    }
  }

  /** `command_attrs.include?(a)` is the predicate `IsCommand`. */
  lemma IsCommandIsListed(a: Attr)
    ensures IsCommand(a) <==> a in COMMAND_ATTRS
  {
    if a in COMMAND_ATTRS {
      var j :| 0 <= j < |COMMAND_ATTRS| && COMMAND_ATTRS[j] == a;
    }
    if IsCommand(a) {
      assert COMMAND_ATTRS[if a == Stage then 0 else a.n] == a;
    }
  }

  /** Every command attribute is a bitmask attribute: command i is bitmask
      attribute 0 (stage) or i + 5 (action group i). */
  lemma CommandIsBitmask(i: nat)
    requires i < |COMMAND_ATTRS|
    ensures COMMAND_ATTRS[i] == BITMASK_ATTRS[if i == 0 then 0 else i + 5]
  {
  }

  /** A panel frame: at least three characters, each a digit or '-'. */
  predicate IsFrame(frame: string)
  {
    |frame| >= 3 && forall i | 0 <= i < |frame| :: IsDigit(frame[i]) || frame[i] == '-'
  }

  /** The throttle field (frame characters 0 and 1): nil when it starts with
      '-', otherwise its number in hundredths, 99 standing for full throttle. */
  function ThrottleOf(field: string): Value
    requires |field| == 2
  {
    if field[0] == '-' then Nil
    else
      var n := ToI(field);
      Float(if n == 99 then 100 else n)
  }

  /** The autopilot selector (frame character 2): digits 0 to 8 name a mode,
      anything else is `smartassoff`. */
  function ModeOf(c: char): Value
  {
    if IsDigit(c) && DigitValue(c) < |MODES| then Str(MODES[DigitValue(c)]) else Str(SMARTASS_OFF)
  }

  /** A bitmask attribute: true when its bit is set; when clear, a command
      attribute reads nil (no signal) and a switch reads false (off). */
  function BitValue(a: Attr, isSet: bool): Value
  {
    if isSet then Bool(true) else if IsCommand(a) then Nil else Bool(false)
  }

  /** The frame's mask: `to_i` of everything after the autopilot character. */
  function MaskOf(frame: string): int
    requires |frame| >= 3
  {
    ToI(frame[3..])
  }

  /** The i-th entry `parse` writes: the throttle, the autopilot mode, then
      bitmask attribute i - 2. */
  function EntryOf(frame: string, i: nat): (Attr, Value)
    requires IsFrame(frame) && i < 17
  {
    if i == 0 then (Throttle, ThrottleOf(frame[..2]))
    else if i == 1 then (AutopilotMode, ModeOf(frame[2]))
    else
      var a := BitmaskAttr(i - 2);
      (a, BitValue(a, Bit(MaskOf(frame), i - 2)))
  }

  /** The hash `parse` has built once it has written its first n entries. */
  function ParsePrefix(frame: string, n: nat): Attrs
    requires IsFrame(frame) && n <= 17
  {
    var r := seq(n, i requires 0 <= i < n => EntryOf(frame, i));
    assert UniqueKeys(r) by {
      SchemaFacts();
      assert forall i | 0 <= i < n :: r[i].0 == VALID_ATTRS[i];
    }
    r
  }

  /** The hash `parse` builds, in canonical order. */
  function ParseOf(frame: string): (r: Attrs)
    requires IsFrame(frame)
    ensures Keys(r) == VALID_ATTRS
  {
    var r := ParsePrefix(frame, 17);
    assert Keys(r) == VALID_ATTRS by {
      forall i | 0 <= i < 17
        ensures Keys(r)[i] == VALID_ATTRS[i]
      {
      }
    }
    r
  }

  /** Writing the next entry extends the parsed prefix by that entry. */
  lemma ParseStep(frame: string, n: nat)
    requires IsFrame(frame) && n < 17
    ensures Store(ParsePrefix(frame, n), EntryOf(frame, n).0, EntryOf(frame, n).1) == ParsePrefix(frame, n + 1)
  {
    var p := ParsePrefix(frame, n);
    var e := EntryOf(frame, n);
    var q := ParsePrefix(frame, n + 1);
    assert p + [e] == q;
    assert e.0 !in Keys(p) by {
      forall i | 0 <= i < n
        ensures Keys(p)[i] != e.0
      {
        assert q[i].0 != q[n].0;
      }
    }
    StoreNew(p, e.0, e.1);
  }

  /** Each name `parse` writes reads back the value written for it. */
  lemma ParseEntry(frame: string, i: nat)
    requires IsFrame(frame) && i < 17
    ensures ValueOf(ParseOf(frame), EntryOf(frame, i).0) == EntryOf(frame, i).1
  {
    GetEntry(ParseOf(frame), i, Nil);
  }

  /** `parse` reads bitmask attribute j as true exactly when bit j of the
      mask is set; when it is clear, a command attribute reads nil and a
      switch reads false. */
  lemma ParseReadsBit(frame: string, j: nat)
    requires IsFrame(frame) && j < |BITMASK_ATTRS|
    ensures var v := ValueOf(ParseOf(frame), BITMASK_ATTRS[j]);
            (Bit(MaskOf(frame), j) ==> v == Bool(true)) &&
            (!Bit(MaskOf(frame), j) && IsCommand(BITMASK_ATTRS[j]) ==> v.Nil?) &&
            (!Bit(MaskOf(frame), j) && !IsCommand(BITMASK_ATTRS[j]) ==> v == Bool(false))
  {
    assert BITMASK_ATTRS[j] == EntryOf(frame, 2 + j).0;
    ParseEntry(frame, 2 + j);
  }

  /** `parse` reads the throttle as nil when the frame starts with '-', and
      for two digits d1 d2 as the Float (10 d1 + d2) / 100, except that 99
      reads as exactly 1.0. */
  lemma ParseReadsThrottle(frame: string)
    requires IsFrame(frame)
    ensures frame[0] == '-' ==> ValueOf(ParseOf(frame), Throttle).Nil?
    ensures IsDigit(frame[0]) && IsDigit(frame[1]) ==>
              var n := 10 * DigitValue(frame[0]) + DigitValue(frame[1]);
              ValueOf(ParseOf(frame), Throttle) == Float(if n == 99 then 100 else n)
  {
    var field := frame[..2];
    ParseEntry(frame, 0);
    assert ValueOf(ParseOf(frame), Throttle) == ThrottleOf(field);
    if IsDigit(frame[0]) && IsDigit(frame[1]) {
      ThrottleOfDigits(field);
    }
  }

  /** Two digits d1 d2 read as the Float (10 d1 + d2) / 100, 99 as 1.0. */
  lemma ThrottleOfDigits(field: string)
    requires |field| == 2 && IsDigit(field[0]) && IsDigit(field[1])
    ensures var n := 10 * DigitValue(field[0]) + DigitValue(field[1]);
            ThrottleOf(field) == Float(if n == 99 then 100 else n)
  {
    TwoDigitField(field);
  }

  /** `parse` reads the autopilot character: a digit d below 9 selects the
      d-th mode, anything else is `smartassoff`. */
  lemma ParseReadsMode(frame: string)
    requires IsFrame(frame)
    ensures IsDigit(frame[2]) && DigitValue(frame[2]) < 9 ==>
              ValueOf(ParseOf(frame), AutopilotMode) == Str(MODES[DigitValue(frame[2])])
    ensures !(IsDigit(frame[2]) && DigitValue(frame[2]) < 9) ==>
              ValueOf(ParseOf(frame), AutopilotMode) == Str(SMARTASS_OFF)
  {
    ParseEntry(frame, 1);
  }

  /** With a clear mask every command attribute reads nil and every other
      bitmask attribute reads false. */
  lemma ParseClearMask(frame: string)
    requires IsFrame(frame) && MaskOf(frame) == 0
    ensures forall j | 0 <= j < |BITMASK_ATTRS| ::
              ValueOf(ParseOf(frame), BITMASK_ATTRS[j]) == if BITMASK_ATTRS[j] in COMMAND_ATTRS then Nil else Bool(false)
  {
    forall j | 0 <= j < |BITMASK_ATTRS|
      ensures ValueOf(ParseOf(frame), BITMASK_ATTRS[j]) == if BITMASK_ATTRS[j] in COMMAND_ATTRS then Nil else Bool(false)
    {
      IsCommandIsListed(BITMASK_ATTRS[j]);
      NoBitsOfZero(j);
      ParseReadsBit(frame, j);
    }
  }

  lemma FullMaskBit(mask: int, j: nat)
    requires mask == Pow2(15) - 1 && j < 15
    ensures Bit(mask, j)
  {
    AllOnes(15, j);
  }

  /** With all 15 bits set (mask 2^15 - 1) every bitmask attribute reads true. */
  lemma ParseFullMask(frame: string)
    requires IsFrame(frame) && MaskOf(frame) == Pow2(15) - 1
    ensures forall j | 0 <= j < |BITMASK_ATTRS| :: ValueOf(ParseOf(frame), BITMASK_ATTRS[j]) == Bool(true)
  {
    forall j | 0 <= j < |BITMASK_ATTRS|
      ensures ValueOf(ParseOf(frame), BITMASK_ATTRS[j]) == Bool(true)
    {
      FullMaskBit(MaskOf(frame), j);
      ParseReadsBit(frame, j);
    }
  }

  /** `diff` over this class's schema. */
  function SchemaDiff(mine: Attrs, theirs: Attrs): Attrs
  {
    ValidDistinct();
    DiffOf(VALID_ATTRS, mine, theirs)
  }

  /** Throttle "59" reads 0.59. */
  lemma ThrottleExample()
    ensures IsFrame("59-0") && ValueOf(ParseOf("59-0"), Throttle) == Float(59)
  {
    ParseReadsThrottle("59-0");
  }

  /** Throttle "99" reads exactly 1.0. */
  lemma FullThrottleExample()
    ensures IsFrame("99-0") && ValueOf(ParseOf("99-0"), Throttle) == Float(100)
  {
    ParseReadsThrottle("99-0");
  }

  /** Autopilot digit '2' reads `normalplus`. */
  lemma ModeExample()
    ensures IsFrame("0020") && ValueOf(ParseOf("0020"), AutopilotMode) == Str("normalplus")
  {
    ParseReadsMode("0020");
  }

  /** Autopilot '-' reads `smartassoff`. */
  lemma ModeOffExample()
    ensures IsFrame("00-0") && ValueOf(ParseOf("00-0"), AutopilotMode) == Str("smartassoff")
  {
    ParseReadsMode("00-0");
  }

  /** Frame "---0": every command attribute reads nil, every other bitmask
      attribute reads false. */
  lemma ClearMaskExample()
    ensures IsFrame("---0")
    ensures forall j | 0 <= j < |BITMASK_ATTRS| ::
              ValueOf(ParseOf("---0"), BITMASK_ATTRS[j]) == if BITMASK_ATTRS[j] in COMMAND_ATTRS then Nil else Bool(false)
  {
    assert MaskOf("---0") == 0;
    ParseClearMask("---0");
  }

  /** Frame "---" followed by the decimal text of the mask 2^15 - 1: every
      bitmask attribute reads true. */
  lemma FullMaskExample(mask: nat)
    requires mask == Pow2(15) - 1
    ensures var frame := "---" + IntToS(mask);
            IsFrame(frame) &&
            forall j | 0 <= j < |BITMASK_ATTRS| :: ValueOf(ParseOf(frame), BITMASK_ATTRS[j]) == Bool(true)
  {
    DashedFrame(mask);
    ParseFullMask("---" + IntToS(mask));
  }

  /** "---" followed by the decimal text of a mask is a frame carrying that mask. */
  lemma DashedFrame(mask: nat)
    ensures IsFrame("---" + IntToS(mask)) && MaskOf("---" + IntToS(mask)) == mask
  {
    var frame := "---" + IntToS(mask);
    assert frame[3..] == IntToS(mask);
    IntToSRoundTrip(mask);
  }

  class ControlState {
    /** `@attrs`. */
    var attrs: Attrs

    /** `ControlState.new(attrs)`: the names are not checked. */
    constructor (attrs: Attrs := [])
      ensures this.attrs == attrs
    {
      this.attrs := attrs;
    }

    /** The hash `parse` fills, attribute by attribute. */
    static method ParseArgs(frame: string) returns (args: Attrs)
      requires IsFrame(frame)
      ensures args == ParseOf(frame)
    {
      args := [];
      assert args == ParsePrefix(frame, 0);
      ParseStep(frame, 0);
      args := Store(args, Throttle, ThrottleOf(frame[..2]));
      ParseStep(frame, 1);
      args := Store(args, AutopilotMode, ModeOf(frame[2]));
      var mask := MaskOf(frame);
      var idx := 0;
      while idx < |BITMASK_ATTRS|
        invariant 0 <= idx <= 15
        invariant args == ParsePrefix(frame, 2 + idx)
      {
        var attr := BITMASK_ATTRS[idx];
        assert EntryOf(frame, 2 + idx) == (attr, BitValue(attr, Bit(mask, idx)));
        ParseStep(frame, 2 + idx);
        args := Store(args, attr, BitValue(attr, Bit(mask, idx)));
        idx := idx + 1;
      }
    }

    /** `ControlState.parse`. */
    static method Parse(frame: string) returns (s: ControlState)
      requires IsFrame(frame)
      ensures fresh(s) && s.attrs == ParseOf(frame)
    {
      var args := ParseArgs(frame);
      s := new ControlState(args);
    }

    /** Raises ArgumentError for a name outside the schema. */
    static function RaiseIfInvalid(a: Attr): (r: Result<()>)
      ensures r.Ok? <==> a in VALID_ATTRS
      ensures r.Err? ==> r.error == UnknownAttribute(a)
    {
      IsValidIsSchema(a);
      if IsValid(a) then Ok(()) else Err(UnknownAttribute(a))
    }

    /** `read`: the value of a schema attribute, nil when the hash lacks it;
        ArgumentError for any other name. */
    function Read(a: Attr): (r: Result<Value>)
      reads this
      ensures r.Ok? <==> IsValid(a)
      ensures r.Ok? ==> r.value == ValueOf(attrs, a)
      ensures r.Err? ==> r.error == UnknownAttribute(a)
    {
      IsValidIsSchema(a);
      var check := RaiseIfInvalid(a);
      if check.Err? then Err(check.error) else Ok(ValueOf(attrs, a))
    }

    /** `write`: sets a schema attribute and returns the value; a name outside
        the schema raises ArgumentError and leaves the hash as it was. */
    method Write(a: Attr, v: Value) returns (r: Result<Value>)
      modifies this
      ensures IsValid(a) ==> r == Ok(v) && attrs == Store(old(attrs), a, v)
      ensures !IsValid(a) ==> r == Err(UnknownAttribute(a)) && attrs == old(attrs)
    {
      IsValidIsSchema(a);
      var check := RaiseIfInvalid(a);
      if check.Err? {
        return Err(check.error);
      }
      attrs := Store(attrs, a, v);
      return Ok(v);
    }

    /** `read_present`: the entries whose value is not nil. */
    function ReadPresent(): (r: Attrs)
      reads this
      ensures forall p :: p in r <==> p in attrs && !p.1.Nil?
    {
      Present(attrs)
    }

    /** `diff`: a new state with this state's value at every schema attribute
        where the two states differ, written in canonical order. */
    method Diff(other: ControlState) returns (out: ControlState)
      ensures fresh(out)
      ensures out.attrs == SchemaDiff(attrs, other.attrs)
    {
      SchemaFacts();
      out := DiffOver(VALID_ATTRS, other);
    }

    /** The walk of `diff` over a list of distinct schema names (the class's
        `valid_attrs`, which Ruby looks up on the receiver's class). */
    method DiffOver(valid: seq<Attr>, other: ControlState) returns (out: ControlState)
      requires Distinct(valid) && forall i | 0 <= i < |valid| :: IsValid(valid[i])
      ensures fresh(out)
      ensures out.attrs == DiffOf(valid, attrs, other.attrs)
    {
      out := new ControlState();
      var i := 0;
      while i < |valid|
        invariant 0 <= i <= |valid|
        invariant fresh(out)
        invariant out.attrs == DiffOf(valid[..i], attrs, other.attrs)
      {
        DiffStep(valid, attrs, other.attrs, i);
        DiffAttr(valid[i], other, out);
        i := i + 1;
      }
      assert valid[..i] == valid;
    }

    /** One step of `diff`: `out.write(a, ours)` when `ours != theirs`. */
    method DiffAttr(a: Attr, other: ControlState, out: ControlState)
      requires IsValid(a) && out != this && out != other
      modifies out
      ensures var ours := ValueOf(attrs, a);
              out.attrs == if Eq(ours, ValueOf(other.attrs, a)) then old(out.attrs) else Store(old(out.attrs), a, ours)
    {
      var ours := Read(a).value;
      var theirs := other.Read(a).value;
      if !Eq(ours, theirs) {
        var written := out.Write(a, ours);
      }
    }

    /** `==`: every schema attribute reads equal in both states. */
    method Equals(other: ControlState) returns (eq: bool)
      ensures eq == SameOn(VALID_ATTRS, attrs, other.attrs)
    {
      SchemaFacts();
      eq := EqualsOver(VALID_ATTRS, other);
    }

    /** The walk of `==` over a list of schema names. */
    method EqualsOver(valid: seq<Attr>, other: ControlState) returns (eq: bool)
      requires forall i | 0 <= i < |valid| :: IsValid(valid[i])
      ensures eq == SameOn(valid, attrs, other.attrs)
    {
      var i := 0;
      while i < |valid|
        invariant 0 <= i <= |valid|
        invariant SameOn(valid[..i], attrs, other.attrs)
      {
        var same := SameAttr(valid[i], other);
        if !same {
          NotSameAt(valid, attrs, other.attrs, i);
          return false;
        }
        SameOnStep(valid, attrs, other.attrs, i);
        i := i + 1;
      }
      assert valid[..i] == valid;
      return true;
    }

    /** One step of that walk: `read(a) == other.read(a)`. */
    method SameAttr(a: Attr, other: ControlState) returns (same: bool)
      requires IsValid(a)
      ensures same == Eq(ValueOf(attrs, a), ValueOf(other.attrs, a))
    {
      same := Eq(Read(a).value, other.Read(a).value);
    }

    /** `merge!`: the other state's non-nil entries written over this one. */
    method Merge(other: ControlState)
      modifies this
      ensures attrs == MergeOf(old(attrs), Present(old(other.attrs)))
    {
      attrs := MergeOf(attrs, Present(other.attrs));
    }

    /** `reset_command_attrs!`: every command attribute written to nil. */
    method ResetCommandAttrs()
      modifies this
      ensures attrs == ResetOf(old(attrs), COMMAND_ATTRS)
    {
      CommandFacts();
      WriteNilEach(COMMAND_ATTRS);
    }

    /** `write(c, nil)` for each name c of a list of schema names, in order. */
    method WriteNilEach(commands: seq<Attr>)
      requires forall i | 0 <= i < |commands| :: IsValid(commands[i])
      modifies this
      ensures attrs == ResetOf(old(attrs), commands)
    {
      var i := 0;
      while i < |commands|
        invariant 0 <= i <= |commands|
        invariant attrs == ResetOf(old(attrs), commands[..i])
      {
        assert commands[..i + 1][..i] == commands[..i];
        var written := Write(commands[i], Nil);
        i := i + 1;
      }
      assert commands[..i] == commands;
    }
  }
}
