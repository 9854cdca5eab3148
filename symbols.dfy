/** Attribute names: the Ruby symbols that key a panel state's hash. */
module Symbols {
  import opened Decimal

  /** The symbols of both panel-state schemas. The current schema uses `sas`,
      `rcs`, `lights`, `gear`, `brakes`; the older one uses the `*_enable`
      names. `ActionGroup(n)` is `:action_group_n`, and `Other(name)` is any
      other symbol. */
  datatype Symbol =
    | Throttle | AutopilotMode | Stage
    | Sas | Rcs | Lights | Gear | Brakes
    | SasEnable | RcsEnable | LightsEnable | GearEnable | BrakesEnable
    | ActionGroup(n: nat)
    | Other(name: string)

  /** The names of the symbols without a parameter. */
  const FIXED_NAMES: seq<string> := [
    "throttle", "autopilot_mode", "stage", "sas", "rcs", "lights", "gear", "brakes",
    "sas_enable", "rcs_enable", "lights_enable", "gear_enable", "brakes_enable"
  ]

  const ACTION_GROUP: string := "action_group_"

  /** `action_group_` followed by the decimal text of a number, as
      `Integer#to_s` writes it (no leading zero). */
  predicate IsActionGroupName(s: string)
  {
    |s| > |ACTION_GROUP| && s[..|ACTION_GROUP|] == ACTION_GROUP &&
    AllDigits(s[|ACTION_GROUP|..]) && (|s| == |ACTION_GROUP| + 1 || s[|ACTION_GROUP|] != '0')
  }

  /** A name that a symbol other than `Other` already has. */
  predicate Reserved(s: string)
  {
    s in FIXED_NAMES || IsActionGroupName(s)
  }

  /** One term per Ruby symbol: `Other` never carries a reserved name. */
  predicate WellNamed(a: Symbol)
  {
    a.Other? ==> !Reserved(a.name)
  }

  /** An attribute name. */
  type Attr = a: Symbol | WellNamed(a) witness Throttle

  /** `Symbol#to_s`. */
  function Name(a: Attr): string
  {
    match a
    case Throttle => "throttle"
    case AutopilotMode => "autopilot_mode"
    case Stage => "stage"
    case Sas => "sas"
    case Rcs => "rcs"
    case Lights => "lights"
    case Gear => "gear"
    case Brakes => "brakes"
    case SasEnable => "sas_enable"
    case RcsEnable => "rcs_enable"
    case LightsEnable => "lights_enable"
    case GearEnable => "gear_enable"
    case BrakesEnable => "brakes_enable"
    case ActionGroup(n) => ACTION_GROUP + NatToS(n)
    case Other(name) => name
  }

  /** No symbol appears twice in `s`. */
  predicate Distinct(s: seq<Attr>)
  {
    forall i, j | 0 <= i < j < |s| :: s[i] != s[j]
  }

  /** An action group's name is an action-group name; no fixed name is. */
  lemma ActionGroupNames(a: Attr)
    ensures IsActionGroupName(Name(a)) <==> a.ActionGroup?
  {
    if a.ActionGroup? {
      var s := Name(a);
      assert s[..|ACTION_GROUP|] == ACTION_GROUP && s[|ACTION_GROUP|..] == NatToS(a.n);
    } else if a.AutopilotMode? {
      assert Name(a)[1] != ACTION_GROUP[1];
    }
  }

  /** Exactly the symbols without a parameter have a fixed name. */
  lemma FixedNames(a: Attr)
    ensures Name(a) in FIXED_NAMES <==> !a.ActionGroup? && !a.Other?
  {
    if a.ActionGroup? {
      ActionGroupNames(a);
      forall i | 0 <= i < |FIXED_NAMES|
        ensures !IsActionGroupName(FIXED_NAMES[i])
      {
        if i == 1 {
          assert FIXED_NAMES[1][1] != ACTION_GROUP[1];
        }
      }
    }
  }

  /** The symbol without a parameter named `s`, if any: `String#to_sym`
      on the fixed names. */
  function FixedSymbol(s: string): Symbol
  {
    match s
    case "throttle" => Throttle
    case "autopilot_mode" => AutopilotMode
    case "stage" => Stage
    case "sas" => Sas
    case "rcs" => Rcs
    case "lights" => Lights
    case "gear" => Gear
    case "brakes" => Brakes
    case "sas_enable" => SasEnable
    case "rcs_enable" => RcsEnable
    case "lights_enable" => LightsEnable
    case "gear_enable" => GearEnable
    case "brakes_enable" => BrakesEnable
    case _ => Other(s)
  }

  /** `Symbol#to_s` is one-to-one: two attribute terms with the same name
      are the same symbol. */
  lemma NameInjective(a: Attr, b: Attr)
    ensures Name(a) == Name(b) <==> a == b
  {
    if Name(a) == Name(b) {
      ActionGroupNames(a);
      ActionGroupNames(b);
      FixedNames(a);
      FixedNames(b);
      if a.ActionGroup? && b.ActionGroup? {
        assert NatToS(a.n) == Name(a)[|ACTION_GROUP|..];
        assert NatToS(b.n) == Name(b)[|ACTION_GROUP|..];
        DigitsValueOfNatToS(a.n);
        DigitsValueOfNatToS(b.n);
      } else if !a.Other? && !b.Other? && !a.ActionGroup? && !b.ActionGroup? {
        assert FixedSymbol(Name(a)) == a && FixedSymbol(Name(b)) == b;
      }
    }
  }
}
