/** `ControlMessage`: the older panel-state data object, an insertion-ordered
    hash from attribute names to values, filled from one panel frame. */
module ControlMessages {
  import opened Decimal
  import opened Symbols
  import opened RubyValues
  import opened OrderedHashes
  import opened Outcomes
  import opened StateOps

  /** `value_attrs`: the throttle (frame characters 0..1) and the autopilot
      mode (frame character 2). */
  const VALUE_ATTRS: seq<Attr> := [Throttle, AutopilotMode]

  /** Bitmask attribute i: stage, the five `*_enable` switches, then action
      groups 1 to 9. */
  function BitmaskAttr(i: nat): Attr
    requires i < 15
  {
    BITMASK_ATTRS[i]
  }

  const BITMASK_ATTRS: seq<Attr> := [
    Stage, SasEnable, RcsEnable, LightsEnable, GearEnable, BrakesEnable,
    ActionGroup(1), ActionGroup(2), ActionGroup(3), ActionGroup(4), ActionGroup(5), ActionGroup(6), ActionGroup(7), ActionGroup(8), ActionGroup(9)
  ]

  /** `valid_attrs`: the value attributes, then the bitmask attributes. */
  const VALID_ATTRS: seq<Attr> := VALUE_ATTRS + BITMASK_ATTRS

  /** Membership in `valid_attrs`, by name. */
  predicate IsValid(a: Attr)
  {
    match a
    case Throttle | AutopilotMode | Stage => true
    case SasEnable | RcsEnable | LightsEnable | GearEnable | BrakesEnable => true
    case ActionGroup(n) => 1 <= n <= 9
    case _ => false
  }

  lemma BitmaskAttrDistinct(i: nat, j: nat)
    requires i < j < 15
    ensures BitmaskAttr(i) != BitmaskAttr(j)
  {
  }

  /** `valid_attrs` holds 17 distinct names, each valid. */
  lemma SchemaFacts()
    ensures |VALID_ATTRS| == 17 && Distinct(VALID_ATTRS)
    ensures forall i | 0 <= i < |VALID_ATTRS| :: IsValid(VALID_ATTRS[i])
  {
    forall i, j | 0 <= i < j < 17
      ensures VALID_ATTRS[i] != VALID_ATTRS[j]
    {
      if i >= 2 {
        BitmaskAttrDistinct(i - 2, j - 2);
      }
    }
  }

  /** Where a valid name stands in `valid_attrs`. */
  function SchemaIndex(a: Attr): (i: nat)
    requires IsValid(a)
    ensures i < |VALID_ATTRS| && VALID_ATTRS[i] == a
  {
    match a
    case Throttle => 0
    case AutopilotMode => 1
    case Stage => 2
    case SasEnable => 3
    case RcsEnable => 4
    case LightsEnable => 5
    case GearEnable => 6
    case BrakesEnable => 7
    case ActionGroup(n) => n + 7
  }

  /** `valid_attrs.include?(a)` is the predicate `IsValid`. */
  lemma IsValidIsSchema(a: Attr)
    ensures IsValid(a) <==> a in VALID_ATTRS
  {
    SchemaFacts();
    if IsValid(a) {
      var i := SchemaIndex(a);
    }
  }

  /** A panel frame: at least three characters, each a digit or '-'. */
  predicate IsFrame(frame: string)
  {
    |frame| >= 3 && forall i | 0 <= i < |frame| :: IsDigit(frame[i]) || frame[i] == '-'
  }

  /** A value field: nil when its first character is '-', otherwise the
      Integer `to_i` makes of it. */
  function FieldOf(field: string): Value
    requires |field| >= 1
  {
    if field[0] == '-' then Nil else Int(ToI(field))
  }

  /** The frame's mask: `to_i` of everything after the autopilot character. */
  function MaskOf(frame: string): int
    requires |frame| >= 3
  {
    ToI(frame[3..])
  }

  /** The i-th entry `parse` writes: the throttle, the autopilot mode, then
      bitmask attribute i - 2 as a Boolean. */
  function EntryOf(frame: string, i: nat): (Attr, Value)
    requires IsFrame(frame) && i < 17
  {
    if i == 0 then (Throttle, FieldOf(frame[..2]))
    else if i == 1 then (AutopilotMode, FieldOf(frame[2..3]))
    else (BitmaskAttr(i - 2), Bool(Bit(MaskOf(frame), i - 2)))
  }

  /** The hash `parse` has built once it has written its first n entries. */
  function ParsePrefix(frame: string, n: nat): Attrs
    requires IsFrame(frame) && n <= 17
  {
    var r := seq(n, i requires 0 <= i < n => EntryOf(frame, i));
    assert UniqueKeys(r) by {
      SchemaFacts();
      assert forall i | 0 <= i < n :: r[i].0 == VALID_ATTRS[i];
    }
    r
  }

  /** The hash `parse` builds: one entry per valid name, in canonical order. */
  function ParseOf(frame: string): (r: Attrs)
    requires IsFrame(frame)
    ensures Keys(r) == VALID_ATTRS
  {
    var r := ParsePrefix(frame, 17);
    assert Keys(r) == VALID_ATTRS by {
      forall i | 0 <= i < 17
        ensures Keys(r)[i] == VALID_ATTRS[i]
      {
      }
    }
    r
  }

  /** Writing the next entry extends the parsed prefix by that entry. */
  lemma ParseStep(frame: string, n: nat)
    requires IsFrame(frame) && n < 17
    ensures Store(ParsePrefix(frame, n), EntryOf(frame, n).0, EntryOf(frame, n).1) == ParsePrefix(frame, n + 1)
  {
    var p := ParsePrefix(frame, n);
    var e := EntryOf(frame, n);
    var q := ParsePrefix(frame, n + 1);
    assert p + [e] == q;
    assert e.0 !in Keys(p) by {
      forall i | 0 <= i < n
        ensures Keys(p)[i] != e.0
      {
        assert q[i].0 != q[n].0;
      }
    }
    StoreNew(p, e.0, e.1);
  }

  /** Each name `parse` writes reads back the value written for it. */
  lemma ParseEntry(frame: string, i: nat)
    requires IsFrame(frame) && i < 17
    ensures ValueOf(ParseOf(frame), EntryOf(frame, i).0) == EntryOf(frame, i).1
  {
    GetEntry(ParseOf(frame), i, Nil);
  }

  /** `parse` reads the throttle field: nil when it starts with '-',
      otherwise the Integer of its leading digits; two digits d1 d2 give
      10 d1 + d2. */
  lemma ParseReadsThrottle(frame: string)
    requires IsFrame(frame)
    ensures frame[0] == '-' ==> ValueOf(ParseOf(frame), Throttle).Nil?
    ensures frame[0] != '-' ==> ValueOf(ParseOf(frame), Throttle) == Int(ToI(frame[..2]))
    ensures IsDigit(frame[0]) && IsDigit(frame[1]) ==>
              ValueOf(ParseOf(frame), Throttle) == Int(10 * DigitValue(frame[0]) + DigitValue(frame[1]))
  {
    ParseEntry(frame, 0);
    if IsDigit(frame[0]) && IsDigit(frame[1]) {
      FieldOfDigits(frame[..2]);
    }
  }

  /** A field of digits reads as their number; two digits d1 d2 as
      10 d1 + d2, one digit d as d. */
  lemma FieldOfDigits(field: string)
    requires 1 <= |field| <= 2 && IsDigit(field[0]) && IsDigit(field[|field| - 1])
    ensures |field| == 2 ==> FieldOf(field) == Int(10 * DigitValue(field[0]) + DigitValue(field[1]))
    ensures |field| == 1 ==> FieldOf(field) == Int(DigitValue(field[0]))
  {
    if |field| == 2 {
      TwoDigitField(field);
    } else {
      assert AllDigits(field);
      ToIOfDigits(field);
    }
  }

  /** `parse` reads the autopilot-mode field alike: nil for '-', otherwise
      the digit's value. */
  lemma ParseReadsMode(frame: string)
    requires IsFrame(frame)
    ensures frame[2] == '-' ==> ValueOf(ParseOf(frame), AutopilotMode).Nil?
    ensures frame[2] != '-' ==> ValueOf(ParseOf(frame), AutopilotMode) == Int(DigitValue(frame[2]))
  {
    ParseEntry(frame, 1);
    if frame[2] != '-' {
      FieldOfDigits(frame[2..3]);
    }
  }

  /** `parse` gives every bitmask attribute a Boolean, never nil: true
      exactly when its bit of the mask is set. */
  lemma ParseReadsBit(frame: string, j: nat)
    requires IsFrame(frame) && j < |BITMASK_ATTRS|
    ensures ValueOf(ParseOf(frame), BITMASK_ATTRS[j]) == Bool(Bit(MaskOf(frame), j))
  {
    assert BITMASK_ATTRS[j] == EntryOf(frame, 2 + j).0;
    ParseEntry(frame, 2 + j);
  }

  /** A mask field of dashes only reads as 0, so every bitmask attribute
      reads false. */
  lemma ParseDashedMask(frame: string)
    requires IsFrame(frame) && forall i | 3 <= i < |frame| :: frame[i] == '-'
    ensures forall j | 0 <= j < |BITMASK_ATTRS| :: ValueOf(ParseOf(frame), BITMASK_ATTRS[j]) == Bool(false)
  {
    ToIOfDashes(frame[3..]);
    forall j | 0 <= j < |BITMASK_ATTRS|
      ensures ValueOf(ParseOf(frame), BITMASK_ATTRS[j]) == Bool(false)
    {
      NoBitsOfZero(j);
      ParseReadsBit(frame, j);
    }
  }

  /** `diff` over this class's `valid_attrs`. */
  function SchemaDiff(mine: Attrs, theirs: Attrs): Attrs
  {
    SchemaFacts();
    DiffOf(VALID_ATTRS, mine, theirs)
  }

  class ControlMessage {
    /** `@attrs`. */
    var attrs: Attrs

    /** `ControlMessage.new(attrs)`: the names are not checked. */
    constructor (attrs: Attrs := [])
      ensures this.attrs == attrs
    {
      this.attrs := attrs;
    }

    /** The hash `parse` fills: the two value fields, then one Boolean per
        bit of the mask. */
    static method ParseArgs(frame: string) returns (args: Attrs)
      requires IsFrame(frame)
      ensures args == ParseOf(frame)
    {
      args := [];
      assert args == ParsePrefix(frame, 0);
      ParseStep(frame, 0);
      args := Store(args, Throttle, FieldOf(frame[..2]));
      ParseStep(frame, 1);
      args := Store(args, AutopilotMode, FieldOf(frame[2..3]));
      var mask := MaskOf(frame);
      var idx := 0;
      while idx < |BITMASK_ATTRS|
        invariant 0 <= idx <= 15
        invariant args == ParsePrefix(frame, 2 + idx)
      {
        var attr := BITMASK_ATTRS[idx];
        assert EntryOf(frame, 2 + idx) == (attr, Bool(Bit(mask, idx)));
        ParseStep(frame, 2 + idx);
        args := Store(args, attr, Bool(Bit(mask, idx)));
        idx := idx + 1;
      }
    }

    /** `ControlMessage.parse`. */
    static method Parse(frame: string) returns (m: ControlMessage)
      requires IsFrame(frame)
      ensures fresh(m) && m.attrs == ParseOf(frame)
    {
      var args := ParseArgs(frame);
      m := new ControlMessage(args);
    }

    /** `raise_if_invalid!`: ArgumentError for a name outside `valid_attrs`. */
    static function RaiseIfInvalid(a: Attr): (r: Result<()>)
      ensures r.Ok? <==> a in VALID_ATTRS
      ensures r.Err? ==> r.error == UnknownAttribute(a)
    {
      IsValidIsSchema(a);
      if IsValid(a) then Ok(()) else Err(UnknownAttribute(a))
    }

    /** `read`: the value of a valid attribute, nil when the hash lacks it;
        ArgumentError for any other name. */
    function Read(a: Attr): (r: Result<Value>)
      reads this
      ensures r.Ok? <==> IsValid(a)
      ensures r.Ok? ==> r.value == ValueOf(attrs, a)
      ensures r.Err? ==> r.error == UnknownAttribute(a)
    {
      IsValidIsSchema(a);
      var check := RaiseIfInvalid(a);
      if check.Err? then Err(check.error) else Ok(ValueOf(attrs, a))
    }

    /** `write`: sets a valid attribute and returns the value; any other
        name raises ArgumentError and leaves the hash as it was. */
    method Write(a: Attr, v: Value) returns (r: Result<Value>)
      modifies this
      ensures IsValid(a) ==> r == Ok(v) && attrs == Store(old(attrs), a, v)
      ensures !IsValid(a) ==> r == Err(UnknownAttribute(a)) && attrs == old(attrs)
    {
      IsValidIsSchema(a);
      var check := RaiseIfInvalid(a);
      if check.Err? {
        return Err(check.error);
      }
      attrs := Store(attrs, a, v);
      return Ok(v);
    }

    /** `read_present`: the entries whose value is not nil. */
    function ReadPresent(): (r: Attrs)
      reads this
      ensures forall p :: p in r <==> p in attrs && !p.1.Nil?
    {
      Present(attrs)
    }

    /** `diff`: a new message with this message's value at every valid
        attribute where the two messages differ, written in canonical order. */
    method Diff(other: ControlMessage) returns (out: ControlMessage)
      ensures fresh(out)
      ensures out.attrs == SchemaDiff(attrs, other.attrs)
    {
      SchemaFacts();
      out := DiffOver(VALID_ATTRS, other);
    }

    /** The walk of `diff` over a list of distinct valid names. */
    method DiffOver(valid: seq<Attr>, other: ControlMessage) returns (out: ControlMessage)
      requires Distinct(valid) && forall i | 0 <= i < |valid| :: IsValid(valid[i])
      ensures fresh(out)
      ensures out.attrs == DiffOf(valid, attrs, other.attrs)
    {
      out := new ControlMessage();
      var i := 0;
      while i < |valid|
        invariant 0 <= i <= |valid|
        invariant fresh(out)
        invariant out.attrs == DiffOf(valid[..i], attrs, other.attrs)
      {
        DiffStep(valid, attrs, other.attrs, i);
        DiffAttr(valid[i], other, out);
        i := i + 1;
      }
      assert valid[..i] == valid;
    }

    /** One step of `diff`: `out.write(a, ours)` when `ours != theirs`. */
    method DiffAttr(a: Attr, other: ControlMessage, out: ControlMessage)
      requires IsValid(a) && out != this && out != other
      modifies out
      ensures var ours := ValueOf(attrs, a);
              out.attrs == if Eq(ours, ValueOf(other.attrs, a)) then old(out.attrs) else Store(old(out.attrs), a, ours)
    {
      var ours := Read(a).value;
      var theirs := other.Read(a).value;
      if !Eq(ours, theirs) {
        var written := out.Write(a, ours);
      }
    }

    /** `==`: every valid attribute reads equal in both messages. */
    method Equals(other: ControlMessage) returns (eq: bool)
      ensures eq == SameOn(VALID_ATTRS, attrs, other.attrs)
    {
      SchemaFacts();
      eq := EqualsOver(VALID_ATTRS, other);
    }

    /** The walk of `==` over a list of valid names. */
    method EqualsOver(valid: seq<Attr>, other: ControlMessage) returns (eq: bool)
      requires forall i | 0 <= i < |valid| :: IsValid(valid[i])
      ensures eq == SameOn(valid, attrs, other.attrs)
    {
      var i := 0;
      while i < |valid|
        invariant 0 <= i <= |valid|
        invariant SameOn(valid[..i], attrs, other.attrs)
      {
        var same := SameAttr(valid[i], other);
        if !same {
          NotSameAt(valid, attrs, other.attrs, i);
          return false;
        }
        SameOnStep(valid, attrs, other.attrs, i);
        i := i + 1;
      }
      assert valid[..i] == valid;
      return true;
    }

    /** One step of that walk: `read(a) == other.read(a)`. */
    method SameAttr(a: Attr, other: ControlMessage) returns (same: bool)
      requires IsValid(a)
      ensures same == Eq(ValueOf(attrs, a), ValueOf(other.attrs, a))
    {
      same := Eq(Read(a).value, other.Read(a).value);
    }
  }
}
