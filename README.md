# ksp-control: the panel-state diffing dispatcher

This project models the core of ksp-control in Dafny. ksp-control bridges a home-built Kerbal Space Program control panel to the Telemachus plugin's HTTP datalink.

The panel sends one ASCII frame per polling interval:
- two throttle characters;
- one autopilot selector character;
- a decimal bitmask over 15 switches.

The dispatcher handles each frame like this:
1. It decodes the frame into a panel state, an insertion-ordered hash from attribute names to values.
2. It diffs that state against the last state it knows.
3. It turns the changed, non-nil attributes into Telemachus commands. Each command is a template with its `%s` filled in, stored under query keys `a`, `b`, … in order.
4. It sends all of them as the query of one GET request.
5. It merges the incoming state into its current state.
6. It resets the momentary attributes, `stage` and action groups 1–9, to nil. A button press is therefore sent on each frame that signals it, and not carried over to a frame that does not.

The model covers four things.

**The panel-state object.** `ControlStates.ControlState` is the current class and `ControlMessages.ControlMessage` the older one.
- Each is a Dafny `class` whose `attrs` field is the ordered hash.
- `write`, `merge!` and `reset_command_attrs!` are methods that reassign that field.
- `read` and `read_present` are functions.
- `diff` and `==` are loops over the schema, proved against the specification functions in `StateOps`.
- `parse` is a loop that builds the hash entry by entry. It is proved equal to the function `ParseOf`.

**The command encoder.** This is the loop of `Dispatcher#post`:
- template lookup;
- rendering of `True`/`False`;
- `gsub` of `%s`;
- `url_key.succ`, with Ruby's `String#succ` on lowercase keys modelled as bijective base 26;
- `URI.encode_www_form` over UTF-8 bytes, with a decoder and a round-trip proof.

**The dispatch cycle of `dispatcher/lib/dispatcher.rb`.** `process` runs diff, then post, then `merge!`, then `reset_command_attrs!`.
- Untemplated entries are skipped and logged.
- `send_commands` can switch requests off.
- A failed request is logged and swallowed.

**The earlier `lib/dispatcher.rb`.**
- An untemplated entry raises `NoMethodError` from `nil.gsub`.
- A failed request propagates out of `process` before the current state is updated.

Modules:
- `Symbols`: attribute names. `Attr` is a subset type in which an `Other` name is never a schema name or `action_group_<n>`, so each Ruby symbol has exactly one term.
- `RubyValues`: `nil`, Boolean, Integer, Float and String values, and Ruby `==` and `to_s` on them.
- `OrderedHashes`: Ruby `Hash` as a sequence of pairs with distinct keys.
- `StateOps`: `read_present`, `diff`, `==`, `merge!` and `reset_command_attrs!` as functions on the hash.
- `ControlMessages` and `ControlStates`: the two state classes.
- `Decimal`: `to_s` and `to_i`.
- `UrlKeys`: `succ`.
- `FormEncoding`: `encode_www_form`.
- `CommandTemplates`: templates and the `commands` hash.
- `Dispatchers`: the current dispatcher.
- `DispatcherExamples`: the dispatcher's test cases.
- `LegacyDispatchers`: the earlier dispatcher.

The source of `ControlState` (lib/control_state.rb) is not part of this model. Its behaviour follows the assertions of spec/lib/control_state_spec.rb where they reach. Its operations follow `ControlMessage`, which it replaced. Where neither says, the model makes the assumptions listed under "Left out".

Where the code and the descriptive documentation of the repository differ, the model follows the code:
- `ControlMessage.parse` reads the autopilot character as an Integer, or nil for `-`. It does not read a mode name.
- Its switch names are `sas_enable`, … and not `sas`, ….
- The earlier dispatcher does not survive a dead endpoint or an unknown attribute. The later one does.

## Model

| member | source | states |
|---|---|---|
| ControlMessages.SchemaFacts | lib/control_message.rb:82-84 | `valid_attrs` is 17 distinct names, each one a valid attribute |
| ControlMessages.SchemaIndex | lib/control_message.rb:41-44 | every valid name has a position in `valid_attrs`: throttle, autopilot_mode, then the bitmask attributes in order |
| ControlMessages.IsValidIsSchema | lib/control_message.rb:63-84 | a name is in `valid_attrs` exactly when it is throttle, autopilot_mode, stage, one of the five `*_enable` switches or action group 1–9 |
| ControlMessages.FieldOf | lib/control_message.rb:15-20 | a value field reads nil when it starts with `-`, and `to_i` of the field otherwise |
| ControlMessages.MaskOf | lib/control_message.rb:22 | the mask is `to_i` of the frame from its fourth character on |
| ControlMessages.EntryOf | lib/control_message.rb:13-25 | the i-th entry `parse` writes: throttle, autopilot mode, then bitmask attribute i-2 as the Boolean of its bit |
| ControlMessages.SchemaDiff | lib/control_message.rb:120-133 | `diff` taken over this class's `valid_attrs` |
| ControlMessages.ParseOf | lib/control_message.rb:13-28 | the parsed hash has exactly the keys of `valid_attrs`, in that order |
| ControlMessages.ParseStep | lib/control_message.rb:19-24 | each `args[key] = val` appends the next entry, so the hash is built in schema order |
| ControlMessages.ParseEntry | lib/control_message.rb:13-28 | every name `parse` writes reads back the value written for it |
| ControlMessages.ParseReadsThrottle | lib/control_message.rb:15-20 | throttle is nil when character 0 is '-'; otherwise the Integer `to_i` of characters 0..1; two digits d1 d2 give 10·d1+d2 |
| ControlMessages.ParseReadsMode | lib/control_message.rb:15-20 | autopilot_mode is nil when character 2 is '-'; otherwise the Integer value of that digit |
| ControlMessages.ParseReadsBit | lib/control_message.rb:22-25 | bitmask attribute j reads the Boolean "bit j of `to_i` of characters 3.. is set", never nil |
| ControlMessages.ParseDashedMask | lib/control_message.rb:22-25 | a mask of dashes reads as 0, so every bitmask attribute is false |
| ControlMessages.ControlMessage.constructor | lib/control_message.rb:86-88 | the message holds the given hash; its names are not checked |
| ControlMessages.ControlMessage.ParseArgs | lib/control_message.rb:13-26 | the loop over value and bitmask attributes builds exactly `ParseOf(frame)` |
| ControlMessages.ControlMessage.Parse | lib/control_message.rb:13-28 | a new message holding the parsed hash |
| ControlMessages.ControlMessage.RaiseIfInvalid | lib/control_message.rb:150-154 | succeeds exactly for names in `valid_attrs`; otherwise ArgumentError "unknown attribute :name" |
| ControlMessages.ControlMessage.Read | lib/control_message.rb:95-98 | a valid name reads its value, nil when absent; any other name gives ArgumentError "unknown attribute :name" |
| ControlMessages.ControlMessage.Write | lib/control_message.rb:110-113 | a valid name: returns the value and the hash becomes `h[a] = v`; any other name: ArgumentError and the hash is unchanged |
| ControlMessages.ControlMessage.ReadPresent | lib/control_message.rb:103-105 | an entry is returned exactly when it is in the hash with a non-nil value |
| ControlMessages.ControlMessage.Diff | lib/control_message.rb:120-133 | a new message holding the canonical-order diff over `valid_attrs`; neither input is modified |
| ControlMessages.ControlMessage.DiffOver | lib/control_message.rb:121-132 | the loop leaves `out` holding `DiffOf` of the names walked |
| ControlMessages.ControlMessage.DiffAttr | lib/control_message.rb:124-129 | `out` gains `a => ours` exactly when ours != theirs, and is unchanged otherwise |
| ControlMessages.ControlMessage.Equals | lib/control_message.rb:141-146 | true exactly when every name of `valid_attrs` reads equal (Ruby `==`, nil included) |
| ControlMessages.ControlMessage.EqualsOver | lib/control_message.rb:142-145 | the loop returns false at the first differing name and true when all agree |
| ControlMessages.ControlMessage.SameAttr | lib/control_message.rb:143 | one comparison `read(a) == other.read(a)` |
| ControlStates.SchemaFacts | spec/lib/control_state_spec.rb:61-65 | `valid_attrs` is `value_attrs + bitmask_attrs`: 17 distinct valid names |
| ControlStates.SchemaIndex | spec/lib/control_state_spec.rb:61-65 | every valid name has its fixed position in `valid_attrs` |
| ControlStates.IsValidIsSchema | spec/lib/control_state_spec.rb:73-78 | a name is valid exactly when it is in `valid_attrs` |
| ControlStates.CommandFacts | spec/lib/control_state_spec.rb:186-201 | `command_attrs` is 10 distinct valid names |
| ControlStates.IsCommandIsListed | spec/lib/control_state_spec.rb:35-37 | a name is momentary exactly when it is in `command_attrs` |
| ControlStates.CommandIsBitmask | spec/lib/control_state_spec.rb:45 | every command attribute is a bitmask attribute (stage, action groups 1–9) |
| ControlStates.ThrottleOf | spec/lib/control_state_spec.rb:6-18 | the throttle field reads nil when it starts with `-`, otherwise its number in hundredths, with 99 read as full throttle |
| ControlStates.ModeOf | spec/lib/control_state_spec.rb:20-28 | digits 0–8 select an autopilot mode name, anything else reads `smartassoff` |
| ControlStates.BitValue | spec/lib/control_state_spec.rb:30-58 | a set bit reads true; a clear bit reads nil for a momentary attribute and false for a switch |
| ControlStates.SchemaDiff | spec/lib/control_state_spec.rb:114-133 | `diff` taken over the current schema |
| ControlStates.ParseOf | spec/lib/control_state_spec.rb:5-59 | the parsed hash has exactly the keys of `valid_attrs`, in order |
| ControlStates.ParseStep | spec/lib/control_state_spec.rb:5-59 | each write in `parse` appends the next schema entry |
| ControlStates.ParseEntry | spec/lib/control_state_spec.rb:5-59 | every name `parse` writes reads back its value |
| ControlStates.ParseReadsThrottle | spec/lib/control_state_spec.rb:6-18 | throttle is nil for '-'; two digits give the Float n/100, except that 99 gives exactly 1.0 |
| ControlStates.ThrottleOfDigits | spec/lib/control_state_spec.rb:6-18 | a two-digit throttle field n decodes to n/100, with 99 read as 1.0 |
| ControlStates.ParseReadsMode | spec/lib/control_state_spec.rb:20-28 | digit d < 9 selects the d-th autopilot mode; any other character gives `smartassoff` |
| ControlStates.ParseReadsBit | spec/lib/control_state_spec.rb:30-58 | bitmask attribute j is true when bit j is set; when clear, nil for a command attribute and false for a switch |
| ControlStates.ParseClearMask | spec/lib/control_state_spec.rb:30-48 | with mask 0 every command attribute is nil and every other bitmask attribute is false |
| ControlStates.FullMaskBit | spec/lib/control_state_spec.rb:51 | every bit below 15 of 2^15-1 is set |
| ControlStates.ParseFullMask | spec/lib/control_state_spec.rb:50-58 | with mask 2^15-1 every bitmask attribute is true |
| ControlStates.ThrottleExample | spec/lib/control_state_spec.rb:6-11 | "59-0" reads throttle 0.59 |
| ControlStates.FullThrottleExample | spec/lib/control_state_spec.rb:13-18 | "99-0" reads throttle 1.0 |
| ControlStates.ModeExample | spec/lib/control_state_spec.rb:20-23 | "0020" reads autopilot mode `normalplus` |
| ControlStates.ModeOffExample | spec/lib/control_state_spec.rb:25-27 | "00-0" reads autopilot mode `smartassoff` |
| ControlStates.ClearMaskExample | spec/lib/control_state_spec.rb:30-48 | "---0": command attributes nil, the other bitmask attributes false |
| ControlStates.FullMaskExample | spec/lib/control_state_spec.rb:50-58 | "---" followed by the text of 2^15-1: every bitmask attribute true |
| ControlStates.DashedFrame | spec/lib/control_state_spec.rb:51-53 | "---" followed by the text of a mask is a frame whose mask reads back as that number |
| ControlStates.ControlState.constructor | spec/lib/control_state_spec.rb:67-71 | the state holds the given hash |
| ControlStates.ControlState.ParseArgs | spec/lib/control_state_spec.rb:5-59 | the loop builds exactly `ParseOf(frame)` |
| ControlStates.ControlState.Parse | spec/lib/control_state_spec.rb:5-59 | a new state holding the parsed hash |
| ControlStates.ControlState.RaiseIfInvalid | spec/lib/control_state_spec.rb:73-78 | succeeds exactly for names in `valid_attrs`; otherwise ArgumentError "unknown attribute :name" |
| ControlStates.ControlState.Read | spec/lib/control_state_spec.rb:67-79 | a valid name reads its value or nil; an unknown name gives ArgumentError "unknown attribute :foo" |
| ControlStates.ControlState.Write | spec/lib/control_state_spec.rb:98-112 | a valid name is set and its value returned; an unknown name gives ArgumentError and no change |
| ControlStates.ControlState.ReadPresent | spec/lib/control_state_spec.rb:81-96 | an entry is returned exactly when its value is not nil |
| ControlStates.ControlState.Diff | spec/lib/control_state_spec.rb:114-133 | a new state holding the newer value where the two differ and nothing where they agree |
| ControlStates.ControlState.DiffOver | spec/lib/control_state_spec.rb:114-133 | the loop leaves `out` holding `DiffOf` of the names walked |
| ControlStates.ControlState.DiffAttr | spec/lib/control_state_spec.rb:114-133 | `out` gains `a => ours` exactly when ours != theirs |
| ControlStates.ControlState.Equals | spec/lib/control_state_spec.rb:135-156 | true exactly when every schema attribute reads equal; a difference such as nil versus 4 makes it false |
| ControlStates.ControlState.EqualsOver | spec/lib/control_state_spec.rb:135-156 | the loop returns false at the first differing name |
| ControlStates.ControlState.SameAttr | spec/lib/control_state_spec.rb:135-156 | one attribute compared with Ruby `==` |
| ControlStates.ControlState.Merge | spec/lib/control_state_spec.rb:158-184 | the state becomes itself with the other's non-nil entries written over it |
| ControlStates.ControlState.ResetCommandAttrs | spec/lib/control_state_spec.rb:186-201 | the state becomes itself with `nil` written to every command attribute |
| ControlStates.ControlState.WriteNilEach | spec/lib/control_state_spec.rb:186-201 | the loop of `write(c, nil)` over a list of schema names |
| StateOps.Present | lib/control_message.rb:103-105 | an entry is kept exactly when it is in the hash and not nil |
| StateOps.PresentInOrder | lib/control_message.rb:103-105 | `read_present` keeps the insertion order of the entries it returns |
| StateOps.PresentAll | lib/control_message.rb:103-105 | `read_present` returns the whole hash exactly when no value is nil |
| StateOps.PresentIdempotent | dispatcher/lib/dispatcher.rb:69-74 | filtering out nils a second time, as `post` does, changes nothing |
| StateOps.ReadPresent | lib/control_message.rb:103-105 | every name reads the same from `read_present` as from the whole hash, nil for the dropped ones |
| StateOps.DiffOf | lib/control_message.rb:120-133 | every diff entry names a schema attribute |
| StateOps.DiffRead | lib/control_message.rb:120-133 | the diff reads self's value at a schema name where the two differ, and nil everywhere else |
| StateOps.DiffStep | lib/control_message.rb:123-130 | one step of the walk appends the differing name's entry, or nothing |
| StateOps.DiffSelf | lib/control_message.rb:120-133 | `s.diff(s)` is empty |
| StateOps.DiffEmptyIffSame | lib/control_message.rb:120-146 | the diff is empty exactly when the two states are `==` |
| StateOps.SameOnStep | lib/control_message.rb:142-145 | agreement on a prefix of the schema extends by one agreeing name |
| StateOps.NotSameAt | lib/control_message.rb:143 | one differing name makes `==` false |
| StateOps.ValueOf | lib/control_message.rb:97 | `@attrs[a]`, nil for a name the hash does not hold |
| StateOps.UnknownAttribute | lib/control_message.rb:150-154 | the `ArgumentError` with message `unknown attribute :<name>` |
| StateOps.SameOn | lib/control_message.rb:141-146 | `==`: every schema name reads equal under Ruby `==`, nil included |
| StateOps.MergeOf | spec/lib/control_state_spec.rb:158-184 | `merge!`: the entries stored one `h[k] = v` after another |
| StateOps.ResetOf | spec/lib/control_state_spec.rb:186-201 | `reset_command_attrs!`: nil stored under each momentary attribute in turn |
| StateOps.MergeReadEntries | spec/lib/control_state_spec.rb:158-184 | after merging entries, a name reads the merged value if it is merged and its old value otherwise |
| StateOps.MergeRead | spec/lib/control_state_spec.rb:158-184 | after `merge!`, a name reads the other's value where that is not nil and keeps its own value where it is nil |
| StateOps.ResetRead | spec/lib/control_state_spec.rb:186-201 | after the reset, a command attribute reads nil and every other name is unchanged |
| StateOps.MergeDiffCatchesUp | dispatcher/lib/dispatcher.rb:58-63 | merging the non-nil part of `mine.diff(theirs)` into theirs makes every non-nil attribute of mine read equal |
| OrderedHashes.Store | lib/control_message.rb:112 | `h[k] = v` keeps the keys, and appends k when it is new |
| OrderedHashes.GetEntry | lib/control_message.rb:97 | every entry of a hash is what reading its key gives |
| OrderedHashes.GetMissing | lib/control_message.rb:97 | a key that is not in the hash reads nil |
| OrderedHashes.GetStore | lib/control_message.rb:110-113 | after `h[k] = v`, k reads v and every other key reads as before |
| OrderedHashes.StoreExisting | lib/control_message.rb:110-113 | writing an existing key replaces its value where it stands and changes no other entry |
| OrderedHashes.StoreNew | lib/control_message.rb:112 | writing a new key appends it at the end |
| OrderedHashes.StorePrefix | lib/control_message.rb:19-24 | building a hash entry by entry with `h[k] = v` reproduces it |
| OrderedHashes.Get | lib/control_message.rb:97 | `h[k]`, with a default for a missing key |
| Decimal.NatToS | spec/lib/control_state_spec.rb:52 | `Integer#to_s` is a digit string without a leading zero |
| Decimal.DigitPrefix | lib/control_message.rb:17 | the longest leading run of digits, the part `to_i` reads |
| Decimal.IntToSRoundTrip | spec/lib/control_state_spec.rb:51-53 | `to_i` of `to_s` of an integer gives back that integer |
| Decimal.DigitsValueOfNatToS | spec/lib/control_state_spec.rb:51-53 | the digits of `to_s` denote the number |
| Decimal.ToIOfDigits | lib/control_message.rb:17 | `to_i` of a digit string is the number it denotes, never negative |
| Decimal.ToIOfDashes | lib/control_message.rb:22 | a run of dashes reads as 0 |
| Decimal.TwoDigitField | lib/control_message.rb:17 | a two-digit field d1 d2 reads as 10·d1+d2 |
| Decimal.ToI | lib/control_message.rb:17 | `String#to_i`: an optional minus sign directly before digits, then the leading run of digits; 0 when there are none |
| Decimal.IntToS | spec/lib/control_state_spec.rb:52 | `Integer#to_s`: a minus sign for a negative number, then its digits |
| RubyValues.EqIsEquivalence | lib/control_message.rb:127 | Ruby `==` on the values is reflexive, symmetric and transitive, and nil equals only nil |
| RubyValues.FloatToSWhole | dispatcher/lib/dispatcher.rb:79-86 | a whole Float prints as its integer followed by ".0" |
| RubyValues.FloatToSBelowOne | dispatcher/lib/dispatcher.rb:79-86 | a Float below 1 prints as "0." and its significant digits |
| RubyValues.AllOnes | spec/lib/control_state_spec.rb:51 | every one of the low k bits of 2^k-1 is set |
| RubyValues.NoBitsOfZero | lib/control_message.rb:22-25 | no bit of 0 is set |
| RubyValues.Eq | lib/control_message.rb:127 | Ruby `==`: Integer and Float compare numerically, other classes never equal each other, `nil == nil` |
| RubyValues.ToS | dispatcher/lib/dispatcher.rb:79-86 | `to_s` of nil, a Boolean, an Integer, a Float or a String |
| RubyValues.FloatToS | dispatcher/lib/dispatcher.rb:79-86 | `Float#to_s`: the integer part, a point, and the fraction without trailing zeros but at least one digit |
| RubyValues.Bit | lib/control_message.rb:24 | `(n & (1 << i)) != 0`, with the arithmetic shift of two's complement |
| Symbols.Name | dispatcher/lib/dispatcher.rb:84 | `Symbol#to_s` of an attribute name |
| Symbols.FixedSymbol | lib/control_message.rb:63-79 | the symbol a fixed attribute name stands for |
| Symbols.ActionGroupNames | lib/control_message.rb:70-78 | a name has the form `action_group_<n>` exactly when it is an action group's |
| Symbols.FixedNames | lib/control_message.rb:63-79 | a name is one of the thirteen fixed names exactly when its symbol has no number |
| Symbols.NameInjective | dispatcher/lib/dispatcher.rb:34-52 | two attribute terms have the same name exactly when they are the same symbol, so hashes keyed by terms are keyed by Ruby symbols |
| UrlKeys.Letter | dispatcher/lib/dispatcher.rb:89 | the letter at offset d from 'a' |
| UrlKeys.Succ | dispatcher/lib/dispatcher.rb:89 | `succ` of a lowercase key is a lowercase key |
| UrlKeys.KeyOf | dispatcher/lib/dispatcher.rb:71-89 | the n-th key is a non-empty lowercase string |
| UrlKeys.SuccNext | dispatcher/lib/dispatcher.rb:89 | `succ` of the n-th key is the (n+1)-th key |
| UrlKeys.FirstKey | dispatcher/lib/dispatcher.rb:71 | the first key is "a" |
| UrlKeys.KeyIndexOfKey | dispatcher/lib/dispatcher.rb:71-89 | a key's position can be read back from the key |
| UrlKeys.KeyOfIndex | dispatcher/lib/dispatcher.rb:71-89 | every lowercase string is the key of exactly one position |
| UrlKeys.KeysDistinct | dispatcher/lib/dispatcher.rb:86-89 | distinct positions get distinct keys, so no command overwrites another |
| FormEncoding.Utf8Char | dispatcher/lib/dispatcher.rb:95 | a character is 1 to 4 UTF-8 bytes; ASCII is its own byte and anything else uses only high bytes |
| FormEncoding.Utf8 | dispatcher/lib/dispatcher.rb:95 | the UTF-8 form is at least as long as the text |
| FormEncoding.HexDigit | dispatcher/lib/dispatcher.rb:95 | an uppercase hex digit that reads back as its value |
| FormEncoding.HexValue | dispatcher/lib/dispatcher.rb:95 | a hex digit's value is below 16 |
| FormEncoding.EncodeByte | dispatcher/lib/dispatcher.rb:95 | a byte becomes 1 to 3 characters of the encoded alphabet |
| FormEncoding.EncodeBytes | dispatcher/lib/dispatcher.rb:95 | encoded bytes use only the encoded alphabet |
| FormEncoding.EncodeComponent | dispatcher/lib/dispatcher.rb:95 | every character of an encoded component is unreserved, '+' or '%', so it never holds '&' or '=' |
| FormEncoding.DecodeByte | dispatcher/lib/dispatcher.rb:95 | decoding reads back an encoded byte before the rest |
| FormEncoding.DecodeEncodeBytes | dispatcher/lib/dispatcher.rb:95 | decoding undoes the encoding of any byte string |
| FormEncoding.ComponentRoundTrip | dispatcher/lib/dispatcher.rb:95 | decoding a component gives back the UTF-8 bytes of the text |
| FormEncoding.EncodeUnreserved | dispatcher/lib/dispatcher.rb:95 | letters, digits and `*-._` are left as they are |
| FormEncoding.Utf8Concat | dispatcher/lib/dispatcher.rb:95 | UTF-8 of a concatenation is the concatenation of the UTF-8 forms |
| FormEncoding.EncodeBytesConcat | dispatcher/lib/dispatcher.rb:95 | encoding distributes over concatenation of bytes |
| FormEncoding.EncodeConcat | dispatcher/lib/dispatcher.rb:95 | encoding distributes over concatenation of text |
| FormEncoding.BracketsEncoded | dispatcher/lib/dispatcher.rb:95 | '[' and ']' encode as `%5B` and `%5D` |
| FormEncoding.EncodeBracketed | dispatcher/lib/dispatcher.rb:95 | `name[value]` with plain name and value encodes as `name%5Bvalue%5D` |
| FormEncoding.EncodePlainPair | dispatcher/lib/dispatcher.rb:95 | a plain key and command give `key=command` |
| FormEncoding.EncodeBracketedPair | dispatcher/lib/dispatcher.rb:95 | a bracketed command gives `key=name%5Bvalue%5D` |
| FormEncoding.EncodedPieces | dispatcher/lib/dispatcher.rb:95 | one encoded `key=value` piece per pair |
| FormEncoding.Utf8Pairs | dispatcher/lib/dispatcher.rb:95 | each pair as the UTF-8 bytes of its key and value |
| FormEncoding.Before | dispatcher/lib/dispatcher.rb:95 | the text before the first separator, which holds no separator |
| FormEncoding.Split | dispatcher/lib/dispatcher.rb:95 | splitting gives at least one piece |
| FormEncoding.SplitForm | dispatcher/lib/dispatcher.rb:95 | splitting the query at '&' gives back the encoded pairs |
| FormEncoding.PairRoundTrip | dispatcher/lib/dispatcher.rb:95 | an encoded pair splits at its '=' into its encoded key and value |
| FormEncoding.DecodeEncodedPairs | dispatcher/lib/dispatcher.rb:95 | decoding the pieces gives each pair's key and value back |
| FormEncoding.FormRoundTrip | dispatcher/lib/dispatcher.rb:94-95 | the query decodes to every command pair, in order, as UTF-8 bytes |
| FormEncoding.EncodeForm | dispatcher/lib/dispatcher.rb:95 | `URI.encode_www_form`: each pair encoded as `key=value`, joined by `&` |
| FormEncoding.DecodeForm | dispatcher/lib/dispatcher.rb:95 | the query split at `&`, then each piece at its first `=`, each side percent-decoded |
| CommandTemplates.FillLiteral | dispatcher/lib/dispatcher.rb:86 | `gsub` leaves a template without `%s` as it is, whatever the value |
| CommandTemplates.FillOne | dispatcher/lib/dispatcher.rb:86 | `gsub` replaces the one `%s` of `pre%spost` by the value |
| CommandTemplates.NoPercent | dispatcher/lib/dispatcher.rb:86 | text without '%' holds no placeholder |
| CommandTemplates.FillBetween | dispatcher/lib/dispatcher.rb:86 | `pre + "%s" + post` without other '%' becomes `pre + value + post` |
| CommandTemplates.ValuedTemplate | dispatcher/lib/dispatcher.rb:34-52 | every template with a value is a head, one `%s` and a tail, with no other '%' |
| CommandTemplates.ValuelessTemplate | dispatcher/lib/dispatcher.rb:34-52 | `stage` and the action group templates are literals without '%' |
| CommandTemplates.TemplateShape | dispatcher/lib/dispatcher.rb:76-86 | a command is the literal for a valueless template and head + rendered value + tail otherwise |
| CommandTemplates.Emitted | dispatcher/lib/dispatcher.rb:82-87 | every emitted position is an entry that has a template |
| CommandTemplates.CommandsOf | dispatcher/lib/dispatcher.rb:74-90 | every command key is a lowercase key of a position among the entries |
| CommandTemplates.CommandsByPosition | dispatcher/lib/dispatcher.rb:74-90 | the j-th command is the command of the j-th templated entry, keyed by that entry's position |
| CommandTemplates.EmittedExactly | dispatcher/lib/dispatcher.rb:82-87 | the emitted positions increase and are exactly the entries with a template |
| CommandTemplates.CommandsEmpty | dispatcher/lib/dispatcher.rb:82-92 | no command is built exactly when no entry has a template |
| CommandTemplates.CommandsStep | dispatcher/lib/dispatcher.rb:82-89 | one more entry adds its command under its own key, or nothing |
| CommandTemplates.AllTemplated | dispatcher/lib/dispatcher.rb:74-90 | when every entry has a template, the i-th command is the i-th entry's, keyed `KeyOf(i)` |
| CommandTemplates.Template | dispatcher/lib/dispatcher.rb:34-52 | `@command_templates[a]`: the 17 templates of the current schema, nil for any other name |
| CommandTemplates.Render | dispatcher/lib/dispatcher.rb:76-80 | `True`/`False` for a Boolean, the value itself (its `to_s`) otherwise |
| CommandTemplates.Fill | dispatcher/lib/dispatcher.rb:86 | `gsub(/%s/, s)`: each `%s`, left to right, replaced by s |
| Dispatchers.UnrecognizedStep | dispatcher/lib/dispatcher.rb:83-84 | each entry adds an error line when it has no template, and nothing otherwise |
| Dispatchers.Dispatcher.constructor | dispatcher/lib/dispatcher.rb:21-53 | the URL and the `send_commands` flag as given; the given current state, or a new empty one |
| Dispatchers.Dispatcher.Post | dispatcher/lib/dispatcher.rb:68-117 | nil when no command; otherwise true. One request when sending is on. The error lines of untemplated entries, then the rescued failure or the warning that sending is off |
| Dispatchers.Dispatcher.BuildCommands | dispatcher/lib/dispatcher.rb:70-90 | the loop builds exactly `CommandsOf(entries)` with `url_key` stepping by `succ`, and logs each untemplated entry |
| Dispatchers.Dispatcher.AddEntry | dispatcher/lib/dispatcher.rb:82-87 | one pass of the loop: store the filled template under `url_key`, or log the entry |
| Dispatchers.Dispatcher.Process | dispatcher/lib/dispatcher.rb:58-66 | posts the incoming state's diff against the state before the update, returns `post`'s result, and always merges and resets |
| Dispatchers.Dispatcher.Advance | dispatcher/lib/dispatcher.rb:62-63 | the current state becomes merged with the incoming state and then reset |
| Dispatchers.TemplatesCoverSchema | dispatcher/lib/dispatcher.rb:34-52 | an attribute has a template exactly when it is in the `ControlState` schema |
| Dispatchers.NextStateRead | dispatcher/lib/dispatcher.rb:61-63 | after `process` a command attribute reads nil; any other name reads the incoming value, or its old value where the incoming one is nil |
| Dispatchers.StageNeverKept | dispatcher/spec/lib/dispatcher_spec.rb:35-43 | `stage` reads nil after `process` |
| Dispatchers.FromEmptyEquals | dispatcher/spec/lib/dispatcher_spec.rb:24-32 | from an empty state, `process` leaves a state `==` to an incoming state without commands |
| Dispatchers.ChangeIsPosted | dispatcher/lib/dispatcher.rb:58-60 | every schema attribute that changed to a non-nil value is posted as its filled template |
| Dispatchers.PresentEntry | lib/control_message.rb:103-105 | a name with a non-nil value is an entry of `read_present` |
| Dispatchers.EntryIsPosted | dispatcher/lib/dispatcher.rb:82-87 | a present entry with a template gives a command under its own key |
| Dispatchers.NoChangeNoPost | dispatcher/spec/lib/dispatcher_spec.rb:47-51 | an incoming state `==` to the current one posts nothing |
| Dispatchers.NilIffNothingTemplated | dispatcher/lib/dispatcher.rb:92-116 | `post` returns nil exactly when no present entry has a template, and true otherwise |
| Dispatchers.AtMostOneRequest | dispatcher/lib/dispatcher.rb:92-104 | at most one request; one exactly when sending is on and some entry has a template; its query is the encoded commands |
| Dispatchers.SendingOffOnlyWarns | dispatcher/lib/dispatcher.rb:104-114 | with `send_commands` false no request is made and the one warning is logged |
| Dispatchers.NilIsPosted | dispatcher/lib/dispatcher.rb:58-60 | a schema attribute that reads nil in the current state is posted whenever the incoming state gives it a value |
| Dispatchers.HeldPressReposted | dispatcher/lib/dispatcher.rb:58-63 | a momentary attribute signalled on two successive frames is posted on the second frame too |
| Dispatchers.LevelOf | dispatcher/lib/dispatcher.rb:84-113 | the unrecognized-command and failed-request lines are errors, the sending-off line a warning |
| Dispatchers.Text | dispatcher/lib/dispatcher.rb:84-113 | the text of each logged line: the command name and value; the URI, message and exception class; or the sending-off notice |
| Dispatchers.RequestUri | dispatcher/lib/dispatcher.rb:94-95 | the base URL with the encoded commands as its query |
| Dispatchers.PostResult | dispatcher/lib/dispatcher.rb:92-116 | `post` returns nil without commands and true otherwise |
| Dispatchers.Requested | dispatcher/lib/dispatcher.rb:92-104 | one GET of the request URI when there are commands and sending is on, none otherwise |
| Dispatchers.Unrecognized | dispatcher/lib/dispatcher.rb:82-84 | one error line per entry without a template, in order |
| Dispatchers.SendLog | dispatcher/lib/dispatcher.rb:102-114 | after the commands: the rescued exception's line when a request fails, the warning when sending is off, nothing otherwise |
| Dispatchers.Posted | dispatcher/lib/dispatcher.rb:58-60 | `process` posts the commands of the incoming state's diff against the current state |
| Dispatchers.NextState | dispatcher/lib/dispatcher.rb:61-63 | `process` leaves the incoming non-nil values merged over the current state, then the momentary attributes reset to nil |
| DispatcherExamples.FirstKeys | dispatcher/lib/dispatcher.rb:71-89 | the first three keys are "a", "b", "c" |
| DispatcherExamples.FormOfTwo | dispatcher/lib/dispatcher.rb:95 | two pairs are joined by one '&' |
| DispatcherExamples.FormOfThree | dispatcher/lib/dispatcher.rb:95 | three pairs are joined by '&' |
| DispatcherExamples.BracketCommand | dispatcher/lib/dispatcher.rb:86 | a bracketed template filled with a value gives `name[value]` under its key |
| DispatcherExamples.PostsAll | lib/control_message.rb:103-105 | a hash without nil values is its own `read_present` |
| DispatcherExamples.SwitchCommands | dispatcher/spec/lib/dispatcher_spec.rb:53-67 | rcs, sas, lights give `f.rcs[True]`, `f.sas[True]`, `f.light[False]` under a, b, c |
| DispatcherExamples.SwitchQuery | dispatcher/spec/lib/dispatcher_spec.rb:57 | those commands encode as `a=f.rcs%5BTrue%5D&b=f.sas%5BTrue%5D&c=f.light%5BFalse%5D` |
| DispatcherExamples.MultipleCommandsExample | dispatcher/spec/lib/dispatcher_spec.rb:53-67 | several commands go into a single request with that query |
| DispatcherExamples.ThrottleCommands | dispatcher/spec/lib/dispatcher_spec.rb:69-79 | throttle 84 gives `f.setThrottle[84]` under a |
| DispatcherExamples.ThrottleQuery | dispatcher/spec/lib/dispatcher_spec.rb:73 | it encodes as `a=f.setThrottle%5B84%5D` |
| DispatcherExamples.ThrottleExample | dispatcher/spec/lib/dispatcher_spec.rb:69-79 | the throttle request is the default URL with that query |
| DispatcherExamples.ModeCommands | dispatcher/spec/lib/dispatcher_spec.rb:81-91 | autopilot mode `prograde` gives `mj.prograde` under a |
| DispatcherExamples.ModeQuery | dispatcher/spec/lib/dispatcher_spec.rb:85 | it encodes as `a=mj.prograde` |
| DispatcherExamples.ModeExample | dispatcher/spec/lib/dispatcher_spec.rb:81-91 | the autopilot request is the default URL with that query |
| DispatcherExamples.TriggerCommands | dispatcher/spec/lib/dispatcher_spec.rb:117-127 | stage and action group 5 give the bare commands `f.stage` and `f.ag5` |
| DispatcherExamples.TriggerQuery | dispatcher/spec/lib/dispatcher_spec.rb:121 | they encode as `a=f.stage&b=f.ag5` |
| DispatcherExamples.TriggerExample | dispatcher/spec/lib/dispatcher_spec.rb:117-127 | the trigger request is the default URL with that query |
| DispatcherExamples.FailureText | dispatcher/spec/lib/dispatcher_spec.rb:160-165 | the error line of a refused connection: URI, `Connection refused - ` and the raised text, then `(Errno::ECONNREFUSED)` |
| DispatcherExamples.FailureLogExample | dispatcher/spec/lib/dispatcher_spec.rb:157-179 | a failed request logs one error line with the full URI, the message and the class |
| DispatcherExamples.UnrecognizedText | dispatcher/spec/lib/dispatcher_spec.rb:143 | the line reads "ignoring unrecognized command additional_command:true" |
| DispatcherExamples.UnrecognizedExample | dispatcher/spec/lib/dispatcher_spec.rb:129-146 | an attribute without a template: no command, no request, and one error-level line naming it |
| LegacyDispatchers.LegacyDispatcher.constructor | lib/dispatcher.rb:9-36 | the URL as given; the given current state, or a new empty one |
| LegacyDispatchers.LegacyDispatcher.Post | lib/dispatcher.rb:51-85 | NoMethodError at an untemplated entry; nil when no command; otherwise one request, whose failure is raised, and true |
| LegacyDispatchers.LegacyDispatcher.BuildCommands | lib/dispatcher.rb:53-65 | the loop builds `CommandsOf(entries)`, or stops with NoMethodError at the first entry without a template |
| LegacyDispatchers.LegacyDispatcher.Process | lib/dispatcher.rb:41-49 | posts the diff; merges and resets only when `post` returns, and leaves the state unchanged when it raises |
| LegacyDispatchers.LegacyDispatcher.Advance | lib/dispatcher.rb:45-46 | the current state becomes merged with the incoming state and then reset |
| LegacyDispatchers.TemplatedStep | lib/dispatcher.rb:56-65 | the templated prefix grows by one templated entry |
| LegacyDispatchers.KeysByPosition | lib/dispatcher.rb:54-64 | with every entry templated, keys are a, b, … by position and each command is its entry's filled template |
| LegacyDispatchers.UntemplatedRaises | lib/dispatcher.rb:63 | an untemplated entry makes `post` raise NoMethodError and no request is made |
| LegacyDispatchers.NothingToSend | lib/dispatcher.rb:67 | `post` returns nil without raising exactly when there are no present entries |
| LegacyDispatchers.AgreesWithDispatcher | lib/dispatcher.rb:51-85 | where the earlier `post` returns, the later one with sending on gives the same result and the same request, and logs no error |
| LegacyDispatchers.NoneUnrecognized | lib/dispatcher.rb:56-65 | a fully templated entry list logs no unrecognized command |
| LegacyDispatchers.LegacyCommands | lib/dispatcher.rb:56-65 | the commands, or `NoMethodError` with `nil.gsub`'s message (the constant `NIL_GSUB`) at the first entry without a template |
| LegacyDispatchers.LegacyPost | lib/dispatcher.rb:51-85 | the `NoMethodError`, nil without commands, the transport exception (message and class) of a failed request, or true |
| LegacyDispatchers.LegacyRequested | lib/dispatcher.rb:67-80 | one GET whenever any command was built, none when the loop raised |

## Left out

- Timing and the info and debug log lines are not modelled. This covers `timed` and the `log_msgs` line with its `smartassoff` → `disabled` rewrite. Only the error and warning lines are kept, in a ghost `log` field of structured lines.
- `Net::HTTP.get` is the parameter `Outcome`: the request is delivered, or fails with a message and an exception class. The URIs requested are kept in the `requests` field.
- The `Logger` object is not modelled; its lines are the ghost `log` field.
- The serial port, the frame and heartbeat threads and the command-line options are not modelled. They live in main.rb and dispatcher/bin/main.rb, which are not part of this model.
- dispatcher/lib/timed.rb is not part of this model.
- lib/control_state.rb is not part of this model. `ControlState` follows the assertions of spec/lib/control_state_spec.rb, with the operations of `ControlMessage`. It is assumed that:
  - `merge!` writes `other.read_present` entry by entry;
  - `reset_command_attrs!` writes nil to `stage` and then to action groups 1–9;
  - throttle is `to_i` of characters 0..1 over 100;
  - the autopilot digits 0–8 select, in order, `prograde`, `retrograde`, `normalplus`, `normalminus`, `radialplus`, `radialminus`, `targetplus`, `targetminus` and `node`, and any other character (`9` included) reads `smartassoff` (the test fixes only digit 2 and `-`; the list follows the repository's description of the frame format, which matches the `mj.` comments of lib/control_message.rb:33-40 with `node` added);
  - the bitmask bits are, from bit 0: `stage`, `sas`, `rcs`, `lights`, `gear`, `brakes`, then action groups 1–9, the order of lib/control_message.rb:63-79 with the current switch names (the test checks only all-clear and all-set masks).
- Frames are restricted by `requires` to strings of at least three characters, each a digit or '-'. Ruby's `to_i` on arbitrary text, and the exception a shorter frame raises, are not modelled.
- Floats are only the values n/100 that `parse` produces, held as hundredths. Their `to_s` is written out for that form only.
- `Float` and `Integer` `to_s` in a command come from the model's `ToS`. Other Ruby objects a hash could hold are not values of the model.
- `gsub` is modelled as plain replacement of `%s`. Backslash escapes in the replacement text are not interpreted, and no rendered value in the model contains them.
- `URI(@telemachus_url)` with `uri.query =` is modelled as the base URL, '?' and the query. The base URL is taken to have no query or fragment of its own.
- `String#succ` is modelled only on lowercase keys, which is all that `post` produces from 'a'.
- `ControlMessage#each` is not modelled; nothing in the core calls it.
- The anonymous subclass of `ControlState` that adds `:additional_command` in the dispatcher test is modelled as a state entry named `Other("additional_command")`. `ControlState.new` does not check names, so no subclass is needed.
- FormEncoding.ComponentRoundTrip: decoding gives back the UTF-8 bytes of the text rather than the text, because UTF-8 decoding is not modelled.
- ControlMessages.ControlMessage.ReadPresent: the contract states set membership only. The insertion order is stated by `StateOps.PresentInOrder` about the same function.
- ControlStates.ControlState.ReadPresent: the same, with the order stated by `StateOps.PresentInOrder`.
- LegacyDispatchers.LegacyCommands: the message of `NoMethodError` is the wording of Ruby 3.2 and earlier; later versions word it differently.
