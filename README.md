# Enigma simulator — a verified model

This project models the cipher engine of the Enigma simulator: the Enigma I and M4 machines with rotors I–V, the Greek rotors Beta and Gamma, the reflectors UKW-B, UKW-C and their thin M4 versions, and the plugboard. It also models the small pieces of logic around the engine:

- the codec that shares a machine configuration in a link fragment;
- the builder of the step-by-step tutorial and its cursor;
- keyboard navigation of the tab bar;
- the letter-frequency histogram.

The project proves properties of each piece:

- the wiring tables are permutations;
- the reflectors are involutions without fixed points;
- the plugboard is a symmetric swap;
- rotor stepping follows the double-step rule;
- the recorded trace hands each stage's letter to the next stage;
- no letter ever encrypts to itself;
- encryption is reciprocal, letter by letter and for whole messages;
- decoding an encoded configuration gives it back.

Modules, one per file:

- `Wrappers` holds `Option` and `Result`.
- `Alphabet` holds letters, indices, and JavaScript's `%` operator.
- `Wirings` holds the historical tables and their permutation laws.
- `Rotors` holds the rotor as a value and `class Rotor`.
- `Reflectors` holds the reflector.
- `Plugboards` holds the validation, the swap table, and `class Plugboard`.
- `Machine` holds:
  - the configuration and its validation;
  - the machine as a value (`Setting`);
  - stepping;
  - the signal path and its trace;
  - message encryption;
  - the reciprocity proofs.
- `Enigma` holds `class EnigmaMachine`, whose methods update the rotor objects in place and are proved against `Machine`.
- `UrlState` holds the link codec.
- `Tutorial` holds the tutorial builder, its cursor, and the letter filter.
- `TabNav` holds the tab keys.
- `Frequency` holds the histogram.

## Model

| member | source | states |
|---|---|---|
| Alphabet.LetterToIndex | src/engine/constants.ts:16-18 | a character is a letter A–Z exactly when its index lies in 0..25 |
| Alphabet.JsRem | src/engine/constants.ts:22 | JavaScript's `%` keeps the dividend's sign, lies strictly between -m and m, and agrees with the Euclidean remainder modulo m |
| Alphabet.Mod | src/engine/constants.ts:26-28 | `mod(n, m)` lies in [0, m) and differs from n by a multiple of m |
| Alphabet.ModMatchesJsFormula | src/engine/constants.ts:26-28 | the source's formula `((n % m) + m) % m`, with JavaScript's `%`, equals the non-negative remainder for every n, negatives included |
| Alphabet.IndexToLetter | src/engine/constants.ts:21-23 | every integer, negatives included, gives a letter A–Z whose index is the integer mod 26 |
| Alphabet.IndexToLetterMatchesJsFormula | src/engine/constants.ts:21-23 | the model agrees with `((index % 26) + 26) % 26 + 65` under JavaScript's `%` |
| Alphabet.LetterIndexRoundTrip | src/engine/constants.ts:15-23 | letterToIndex and indexToLetter are mutual inverses between A–Z and 0..25 |
| Alphabet.AlphabetInOrder | src/engine/constants.ts:12-13 | ALPHABET has 26 letters, letter i having index i |
| Wirings.NotchIndex | src/engine/constants.ts:49-55 | rotors I–V have a notch index in 0..25; Beta and Gamma have -1 |
| Wirings.ToIndicesAt | src/engine/rotor.ts:56 | entry i of the table built from a wiring string is the index of letter i |
| Wirings.InverseTableIsInverse | src/engine/rotor.ts:58-62 | the reverse table built from a permutation undoes it and is undone by it |
| Wirings.InverseTable | src/engine/rotor.ts:58-62 | a table of 26 entries; InverseTableIsInverse proves that it undoes the permutation it is built from |
| Wirings.InverseIsUnique | src/engine/rotor.ts:58-62 | any table with `u[t[i]] == i` for all i equals the computed reverse table |
| Wirings.CoveringIsInjective | src/engine/constants.ts:31-39 | pigeonhole: 26 entries covering 0..25 are pairwise distinct |
| Wirings.PermutationFromString | src/engine/constants.ts:31-39 | a 26-letter string using every letter yields a permutation table |
| Wirings.WheelUsesEveryLetter | src/engine/constants.ts:31-39 | each of the seven rotor wiring strings uses every letter A–Z |
| Wirings.RotorWiringIsPermutation | src/engine/constants.ts:31-39 | each of the seven rotor wirings is a permutation of 0..25 |
| Wirings.ReflectionFromString | src/engine/reflector.ts:5-7 | a string that moves every letter and pairs letters yields an involution with no fixed point |
| Wirings.ReflectorPairsLetters | src/engine/constants.ts:58-63 | each of the four reflector strings moves every letter and maps each letter's partner back to it |
| Wirings.ReflectorWiringIsReflection | src/engine/constants.ts:58-63 | each of the four reflector tables is an involution without a fixed point |
| Wirings.ReflectionIsPermutation | src/engine/reflector.ts:5-7 | a reflection is a permutation |
| Rotors.RotorArgsError | src/engine/rotor.ts:46-51 | construction fails exactly when the ring setting is outside 1–26 or the position is not one letter A–Z; the ring check comes first |
| Rotors.WheelTablesInverse | src/engine/rotor.ts:55-62 | each wheel's reverse table is the inverse of its forward table |
| Rotors.InitialRotorState | src/engine/rotor.ts:45-71 | a new rotor is sound and wired with the wheel's tables; it stores ring setting minus one, and its position shows the initial letter |
| Rotors.Through | src/engine/rotor.ts:95-111 | shift, look up and shift back always give an index in 0..25 |
| Rotors.RotorForward | src/engine/rotor.ts:95-100 | the forward pass gives an index 0..25; RotorReverseUndoesForward proves that the reverse pass undoes it |
| Rotors.RotorReverse | src/engine/rotor.ts:106-111 | the reverse pass gives an index 0..25; RotorReverseUndoesForward proves that it undoes the forward pass |
| Rotors.ThroughInverse | src/engine/rotor.ts:95-111 | passing through a table and then its inverse, with the same offset, returns the input |
| Rotors.InverseOfInverse | src/engine/rotor.ts:58-62 | when u undoes t, t undoes u |
| Rotors.RotorReverseUndoesForward | src/engine/rotor.ts:95-111 | `reverse(forward(x)) == x` and `forward(reverse(x)) == x` for every position, ring setting and x in 0..25 |
| Rotors.RotorForwardInjective | src/engine/rotor.ts:95-100 | forward maps different inputs to different outputs |
| Rotors.AtNotchMeansNotchLetter | src/engine/rotor.ts:64-66 | a wired rotor is at its notch exactly when it is one of I–V showing its notch letter; Beta and Gamma never are |
| Rotors.Advance | src/engine/rotor.ts:114-116 | step adds one to the position, Z wrapping to A, and changes nothing else |
| Rotors.AdvanceTimesPosition | src/engine/rotor.ts:114-116 | n steps move the position n places on, mod 26 |
| Rotors.AdvanceFullTurn | src/engine/rotor.ts:114-116 | 26 steps return a rotor to where it started |
| Rotors.Rotor.constructor | src/engine/rotor.ts:45-71 | the constructor's loop builds the inverse table; the new rotor's state is the initial rotor state |
| Rotors.Rotor.New | src/engine/rotor.ts:45-71 | `new Rotor` fails with the first failed check, otherwise returns a fresh valid rotor in its initial state |
| Rotors.Rotor.Forward | src/engine/rotor.ts:95-100 | forward computes the value-level forward pass and changes nothing |
| Rotors.Rotor.Reverse | src/engine/rotor.ts:106-111 | reverse computes the value-level reverse pass and changes nothing |
| Rotors.Rotor.Step | src/engine/rotor.ts:114-116 | step advances the position by one and keeps the rotor valid |
| Rotors.Rotor.AtNotch | src/engine/rotor.ts:122-124 | atNotch holds exactly when the position equals the notch |
| Rotors.Rotor.PositionLetter | src/engine/rotor.ts:79-81 | the letter shown is the letter whose index is the position |
| Rotors.Rotor.ResetPosition | src/engine/rotor.ts:127-129 | resetPosition sets the position to the letter's index and changes nothing else |
| Reflectors.NewReflector | src/engine/reflector.ts:19-23 | the table is the named wiring, an involution without a fixed point |
| Reflectors.Reflect | src/engine/reflector.ts:26-28 | reflect returns an index in 0..25, never its input, and the table maps the output back to the input |
| Reflectors.ReflectTwice | src/engine/reflector.ts:26-28 | reflecting twice is the identity |
| Reflectors.UkwBPairsAWithY | src/engine/constants.ts:59 | UKW-B maps A to Y and Y to A |
| Reflectors.UkwCSendsAToF | src/engine/constants.ts:60 | UKW-C maps A to F |
| Plugboards.PairsErrorFromNone | src/engine/plugboard.ts:41-54 | the pair loop finds nothing exactly when no pair joins a letter to itself, no letter is shared, and none reuses an earlier letter |
| Plugboards.PairsErrorFrom | src/engine/plugboard.ts:41-54 | the loop never reports too many pairs; PairsErrorFromNames says which letter it reports |
| Plugboards.PairsErrorFromNames | src/engine/plugboard.ts:41-54 | a self-pair error names a letter some cable joins to itself; a reuse error names a letter on some cable that was already used, before the loop or by an earlier cable |
| Plugboards.PairsError | src/engine/plugboard.ts:36-55 | too many pairs exactly when there are more than 13; PairsErrorNames says which letter any other error names, and PairsErrorNoneIffValid that there is no error exactly for valid pairs |
| Plugboards.PairsErrorNames | src/engine/plugboard.ts:36-55 | a self-pair error names the letter of a cable joining it to itself; a reuse error names a letter that is on two different cables |
| Plugboards.PairsErrorNoneIffValid | src/engine/plugboard.ts:36-55 | validate accepts exactly the pair lists with at most 13 pairs, no self-pair and no reused letter |
| Plugboards.TooManyPairsFirst | src/engine/plugboard.ts:37-39 | more than 13 pairs is reported as too many pairs, before any pair is inspected |
| Plugboards.PairsErrorFromNotTooMany | src/engine/plugboard.ts:42-54 | the pair loop reports only a self-pair or a reused letter |
| Plugboards.SwapTableMeaning | src/engine/plugboard.ts:20-27 | for pairs sharing no letter, the table swaps each pair's letters and fixes every unplugged letter |
| Plugboards.SwapTable | src/engine/plugboard.ts:20-27 | a table of 26 indices 0..25; SwapTableMeaning and SwapTableInvolution prove that it swaps the pairs and is its own inverse |
| Plugboards.SwapTableStep | src/engine/plugboard.ts:22-27 | one more pair, sharing no letter with the earlier ones, keeps the swap and fixed-point facts |
| Plugboards.SwapTableInvolution | src/engine/plugboard.ts:20-27 | for valid pairs the table is an involution of 0..25 |
| Plugboards.NoPairsIsIdentity | src/engine/plugboard.ts:20 | with no pairs the board maps every letter to itself |
| Plugboards.IndicesOfSize | src/engine/plugboard.ts:41-54 | valid pairs plug exactly twice as many letters as there are pairs |
| Plugboards.FullBoardHasNoFixedPoint | src/engine/plugboard.ts:6-7 | with 13 valid pairs no letter maps to itself |
| Plugboards.Plugboard.constructor | src/engine/plugboard.ts:17-28 | the loop writes both directions of each pair; the board is valid and its table is the swap table of the pairs |
| Plugboards.Plugboard.Validate | src/engine/plugboard.ts:36-55 | the loop that grows the set of used letters reports exactly the error of the validation rules |
| Plugboards.Plugboard.New | src/engine/plugboard.ts:17-28 | `new Plugboard` fails exactly with the validation error, otherwise returns a fresh valid board with the swap table |
| Plugboards.Plugboard.Swap | src/engine/plugboard.ts:31-33 | swap returns an index in 0..25 that the table maps back to the input |
| Machine.SlotError | src/engine/enigma.ts:74-86 | a slot fails exactly when its rotor's constructor would |
| Machine.ConfigError | src/engine/enigma.ts:53-94 | the constructor never reports a letter error; ConfigErrorMeaning says what each error it reports means, and ConfigErrorNoneIffValid proves no error exactly for valid configurations |
| Machine.ConfigErrorMeaning | src/engine/enigma.ts:53-94 | duplicate rotors are reported exactly when two names repeat, a Greek/thin error holds in the direction it names, a rotor error is one slot's constructor error, a plugboard error is the pairs' validation error |
| Machine.ConfigErrorNoneIffValid | src/engine/enigma.ts:53-94 | the constructor accepts exactly the configurations with three distinct rotors, a Greek rotor exactly when the reflector is thin, good slots and valid pairs |
| Machine.M4NeedsThinReflector | src/engine/enigma.ts:60-69 | an accepted configuration has a Greek rotor exactly when its reflector is UKW-B-thin or UKW-C-thin |
| Machine.InitialSetting | src/engine/enigma.ts:71-89 | the machine built from an accepted configuration is sound, has a Greek rotor exactly when configured, and uses the named reflector |
| Machine.InitialSettingWired | src/engine/enigma.ts:74-86 | every rotor of a new machine holds its wheel's tables and notch |
| Machine.Positions | src/engine/enigma.ts:169-178 | getPositions lists letters, [G, L, M, R] on an M4 and [L, M, R] otherwise |
| Machine.PositionsDetermineSetting | src/engine/enigma.ts:169-178 | two sound states of the same machine with the same window letters are equal |
| Machine.StepRotors | src/engine/enigma.ts:206-218 | stepping changes only positions and keeps the machine sound |
| Machine.StepRotorsMoves | src/engine/enigma.ts:206-218 | the right rotor always steps; the middle steps when it or the right rotor was at its notch; the left steps when the middle was; both flags are read before any move, and the Greek rotor never steps |
| Machine.DoubleStep | src/engine/enigma.ts:18-27 | with the right rotor at its notch and the middle one short of its own, the middle steps on two presses in a row, taking the left rotor with it the second time |
| Machine.StepTimes | src/engine/enigma.ts:206-218 | n key presses change only positions |
| Machine.RightRotorTurns | src/engine/enigma.ts:217 | after n presses the right rotor has advanced n times |
| Machine.RightRotorFullRevolution | src/engine/enigma.ts:217 | after 26 presses the right rotor shows its starting letter again |
| Machine.DoubleStepScenario | tests/engine/stepping.test.ts:84-97 | rotors I, II, III at A, D, U show ADV, AEW, then BFX over three presses |
| Machine.Flip | src/engine/enigma.ts:116-118 | the same component, the other direction |
| Machine.MirrorSnoc | src/engine/enigma.ts:120-149 | mirroring a path with a stage appended puts the flipped stage in front |
| Machine.MirrorTwice | src/engine/enigma.ts:120-149 | mirroring a path twice gives it back |
| Machine.SignalPath | src/engine/enigma.ts:120-149 | the signal path has 9 stages, 11 with a Greek rotor |
| Machine.PathBack | src/engine/enigma.ts:137-149 | the way back is the mirror of the way in: Greek, left, middle, right reversed, then the plugboard |
| Machine.SignalPathStages | src/engine/enigma.ts:120-149 | the path lists the stages in the order encryptLetter runs them |
| Machine.PathFront | src/engine/enigma.ts:120-135 | the way in is plugboard, right, middle, left rotor, the Greek rotor on an M4, and the reflector comes right after it |
| Machine.Turn | src/engine/enigma.ts:123-147 | a rotor passed either way gives an index in 0..25 |
| Machine.Pass | src/engine/enigma.ts:120-149 | every stage maps an index in 0..25 to one in 0..25 |
| Machine.PassUndo | src/engine/enigma.ts:120-149 | passing any component except the reflector one way and then back returns the signal |
| Machine.Signal | src/engine/enigma.ts:112-149 | the signal stays an index in 0..25 along any path |
| Machine.TraceShape | src/engine/enigma.ts:112-157 | the trace has one entry per stage, naming the stage; it starts with the key's letter; each output is the next input; it ends with the final signal's letter |
| Machine.SignalAppend | src/engine/enigma.ts:112-149 | running two paths in turn is running their concatenation |
| Machine.TraceSnoc | src/engine/enigma.ts:116-118 | one more stage sends the signal through it and appends its trace entry |
| Machine.MirrorInvertible | src/engine/enigma.ts:137-149 | the mirror of a reflector-free path is reflector-free |
| Machine.MirrorUndoes | src/engine/enigma.ts:137-149 | going back along the mirrored path undoes any reflector-free path |
| Machine.InboundInvertible | src/engine/enigma.ts:120-132 | the way in fits the machine and contains no reflector |
| Machine.PathFits | src/engine/enigma.ts:120-149 | every stage of the path exists in the machine, the Greek rotor only on an M4 |
| Machine.Encipher | src/engine/enigma.ts:112-153 | the lamp index is in 0..25 |
| Machine.EncipherPieces | src/engine/enigma.ts:120-149 | the cipher is the way back, applied to the reflection, applied to the way in |
| Machine.InboundUndoesOutbound | src/engine/enigma.ts:120-149 | the way back followed by the way in is the identity |
| Machine.EncipherReciprocal | src/engine/enigma.ts:16 | in one setting, enciphering the output gives back the input |
| Machine.EncipherNoFixedPoint | src/engine/reflector.ts:5-7 | no letter is enciphered as itself |
| Machine.EncipherInjective | src/engine/enigma.ts:112-153 | in a fixed setting, different keys light different lamps |
| Machine.EncryptLetter | src/engine/enigma.ts:100-110 | anything but one letter A–Z is refused with nothing moved; otherwise the rotors step first, and only positions change |
| Machine.EncryptLetterResult | src/engine/enigma.ts:100-158 | a key press reports the key, a lamp letter different from it, 9 or 11 trace entries chained from the key to the lamp, and the positions before and after stepping |
| Machine.EncryptMessage | src/engine/enigma.ts:164-166 | a message run changes only positions; MessageIsCipher and EncryptMessageStops give its result on letters and at the first non-letter |
| Machine.StepTimesFront | src/engine/enigma.ts:206-218 | n + 1 presses are one press followed by n |
| Machine.MessageIsCipher | src/engine/enigma.ts:164-166 | on letters, encryptMessage gives the reference ciphertext and presses once per letter |
| Machine.EncryptMessageStops | src/engine/enigma.ts:164-166 | on letters followed by a non-letter, encryptMessage fails on that character with the rotors moved once per letter before it |
| Machine.StopsAfterLetter | src/engine/enigma.ts:164-166 | a letter in front of a message that fails leaves the failure and the final setting as they were |
| Machine.CipherShape | src/engine/enigma.ts:164-166 | the ciphertext is as long as the message, consists of letters, and differs from it at every position |
| Machine.CipherReciprocal | src/engine/enigma.ts:16 | enciphering the ciphertext from the same setting gives back the message |
| Machine.MessageReciprocal | tests/engine/enigma.test.ts:131-179 | from the same start, the ciphertext enciphers back to the message, with the same final rotor positions; it has the same length and differs at every position |
| Enigma.SlotStartLetter | src/engine/enigma.ts:91-93 | a slot's start letter is the letter its new rotor shows |
| Enigma.InitialPositions | src/engine/enigma.ts:91-93 | three start letters, four on an M4; StartLettersOfConfig proves that they are the letters the new rotors show, left to right with the Greek rotor first |
| Enigma.StartLettersOfConfig | src/engine/enigma.ts:91-93 | initialPositions lists the letters the new rotors show, the Greek rotor's first |
| Enigma.PrependStep | src/engine/enigma.ts:164-166 | one key press of encryptMessage, as seen from the output produced so far |
| Enigma.EnigmaMachine.constructor | src/engine/enigma.ts:53-94 | a machine assembled from parts built from an accepted configuration is valid and in its initial setting |
| Enigma.EnigmaMachine.New | src/engine/enigma.ts:53-94 | `new EnigmaMachine` fails with the first failed check in source order; otherwise it returns a fresh machine with fresh rotors in the initial setting |
| Enigma.EnigmaMachine.StepRotors | src/engine/enigma.ts:206-218 | the in-place stepping of the rotor objects equals the value-level stepping rule |
| Enigma.EnigmaMachine.GetPositions | src/engine/enigma.ts:169-178 | returns the window letters of the current state and changes nothing |
| Enigma.EnigmaMachine.GetState | src/engine/enigma.ts:181-186 | returns the configuration and the window letters and changes nothing |
| Enigma.EnigmaMachine.Record | src/engine/enigma.ts:115-118 | one line of the signal path sends the signal through the stage and appends the stage's trace entry |
| Enigma.EnigmaMachine.SignalIn | src/engine/enigma.ts:120-135 | the first half of the path leaves the signal and trace of plugboard, rotors and reflector |
| Enigma.EnigmaMachine.SignalOut | src/engine/enigma.ts:137-149 | the second half completes the signal and the trace of the whole path |
| Enigma.EnigmaMachine.EncryptLetter | src/engine/enigma.ts:100-158 | the in-place key press returns and leaves exactly what the value-level key press gives |
| Enigma.EnigmaMachine.EncryptMessage | src/engine/enigma.ts:164-166 | the in-place loop returns and leaves exactly what the value-level message run gives, including a partial run before a refused character |
| Enigma.EnigmaMachine.Reset | src/engine/enigma.ts:189-200 | every rotor, the Greek one included, returns to its start letter; nothing else changes |
| UrlState.Split | src/utils/urlState.ts:55 | `split` gives at least one piece, and no piece contains the separator |
| UrlState.JoinSplit | src/utils/urlState.ts:23 | joining the pieces of a split gives back the string |
| UrlState.SplitJoin | src/utils/urlState.ts:55 | splitting a join of separator-free pieces gives back the pieces |
| UrlState.NumberOfDecimal | src/utils/urlState.ts:60 | `Number(String(n)) == n` for every natural number |
| UrlState.Pad2RoundTrip | src/utils/urlState.ts:22 | a ring setting 1..26 is written as two digits that read back as itself |
| UrlState.NameSpellings | src/utils/urlState.ts:11-13 | a rotor, Greek or reflector name is read back from its own spelling and from nothing else |
| UrlState.Get | src/utils/urlState.ts:52 | `params.get` returns the value of the first entry with that name, or null when there is none |
| UrlState.NumberOf | src/utils/urlState.ts:60 | a field is a number exactly when it is present and all digits, and the number is not negative; NumberOfDecimal proves that it reads `String(n)` as `n` |
| UrlState.Entry | src/utils/urlState.ts:49 | a piece with '=' is its name, the first '=', and its value; a piece without '=' is a name with the empty value; the name never holds '=' |
| UrlState.SplitAtFirst | src/utils/urlState.ts:49 | a string with the separator is its first piece, the separator and the rest rejoined; one without it splits into itself |
| UrlState.Entries | src/utils/urlState.ts:49 | when no piece is empty, the entries are the pieces' entries in order; never more entries than pieces, and no name holds '=' |
| UrlState.EntriesAppend | src/utils/urlState.ts:49 | the pieces of a concatenation give the two runs' entries, one after the other |
| UrlState.EntriesSkipEmpty | src/utils/urlState.ts:49 | an empty piece adds no entry, wherever it stands |
| UrlState.Params | src/utils/urlState.ts:49 | an empty query has no entries and no entry name holds '='; ParamsOfTexts proves that it reads back the plain entries joined with '&' |
| UrlState.RingFrom | src/utils/urlState.ts:60-62 | a ring field is accepted exactly when `Number` reads it as a number in 1..26, and then the ring setting is that number |
| UrlState.ParseRotor | src/utils/urlState.ts:58-65 | a slot is accepted exactly when its first '-'-field is a known rotor name, its second reads as a ring in 1..26 and its third is one letter; the result's ring is the number written and its position the third field |
| UrlState.ParseGreek | src/utils/urlState.ts:80-87 | the same as a rotor slot, against the names Beta and Gamma |
| UrlState.ParsePairs | src/utils/urlState.ts:92-99 | the plug list is refused exactly when some piece is not two different letters A–Z; otherwise each piece becomes its pair |
| UrlState.PlugsFrom | src/utils/urlState.ts:90-99 | a missing or empty `p` gives no cables; otherwise the field is refused exactly when one '.'-piece is not a pair, and the cables are the pieces in order |
| UrlState.GreekFrom | src/utils/urlState.ts:78-87 | a missing or empty `g` gives no Greek rotor; otherwise the field is refused exactly when the Greek slot is, and the Greek rotor is that slot |
| UrlState.RotorsFrom | src/utils/urlState.ts:52-71 | the `r` entry is accepted exactly when it is present, has three '.'-parts and each reads as a rotor slot; the three rotors are those slots, left to right |
| UrlState.ReflectorFrom | src/utils/urlState.ts:74-75 | the `f` entry gives reflector g exactly when it is g's spelling, so anything else is refused |
| UrlState.Assemble | src/utils/urlState.ts:101-114 | the configuration is built exactly when the three rotor names differ and there is a Greek rotor exactly when the reflector is thin, and it holds the parsed parts unchanged |
| UrlState.Decode | src/utils/urlState.ts:45-115 | an empty fragment gives null; a decoded configuration has distinct rotors, a Greek rotor exactly when the reflector is thin, good slots and no self-pair, and its rotors, reflector, Greek rotor and cables are what the `r`, `f`, `g` and `p` entries read as |
| UrlState.ReadPlugs | src/utils/urlState.ts:92-99 | the loop pushing pairs returns what the plug-list reading gives |
| UrlState.DecodeConfig | src/utils/urlState.ts:45-115 | the step-by-step decoder with early returns gives exactly `Decode` |
| UrlState.DecodeExactly | src/utils/urlState.ts:45-115 | a fragment decodes to `c` exactly when it is not empty, its four entries read as the parts of `c`, the rotors differ and the Greek rotor matches the reflector |
| UrlState.GreekEntryIffThin | src/utils/urlState.ts:79-107 | a decoded link has a non-empty `g` entry exactly when its reflector is thin |
| UrlState.RingOfPad2 | src/utils/urlState.ts:60-62 | a two-digit ring field reads as its number and is refused outside 1..26, so `00` and `27` are refused |
| UrlState.UnknownRotorRefused | tests/utils/urlState.test.ts:103-105 | the slot `X-01-A` is refused |
| UrlState.RingOutOfRangeRefused | tests/utils/urlState.test.ts:107-110 | the slots `I-00-A` and `I-27-A` are refused |
| UrlState.RingZeroRefused | tests/utils/urlState.test.ts:108 | the slot `I-00-A` is refused |
| UrlState.RingTwentySevenRefused | tests/utils/urlState.test.ts:109 | the slot `I-27-A` is refused |
| UrlState.DigitPositionRefused | tests/utils/urlState.test.ts:112-114 | the slot `I-01-1` is refused |
| UrlState.ReflectorAndPlugRefused | tests/utils/urlState.test.ts:116-134 | `f=UKW-X` and `p=AA` are refused |
| UrlState.TwoSlotsRefused | tests/utils/urlState.test.ts:128-130 | an `r` entry made of two slot texts joined by one '.', such as `I-01-A.II-01-A`, is refused |
| UrlState.SplitSlot | src/utils/urlState.ts:59 | three fields without '-' joined with '-' split back into those three fields |
| UrlState.FieldsRoundTrip | src/utils/urlState.ts:17-42 | URLSearchParams reads back the entries encodeConfig wrote, with or without a leading '#' |
| UrlState.RotorsFieldRoundTrip | src/utils/urlState.ts:20-24 | the rotor entry reads back as the three slots |
| UrlState.DecodeEncode | tests/utils/urlState.test.ts:62-91 | `decodeConfig(encodeConfig(c)) == c` for every configuration a link can carry, with or without the leading '#' |
| UrlState.DecodeWritten | src/utils/urlState.ts:17-115 | for any configuration with good slots, decoding what the encoder wrote leaves only the distinct-rotor and Greek/thin checks |
| UrlState.GreekMismatchRefused | tests/utils/urlState.test.ts:120-126 | a link whose Greek rotor does not match its reflector (thin without `g`, standard with `g`) is refused, with or without '#' |
| UrlState.RepeatedRotorRefused | src/utils/urlState.ts:101-102 | a link naming the same rotor twice is refused |
| UrlState.EncodeConfig | src/utils/urlState.ts:17-42 | the link starts with `r=`; DecodeEncode proves that decoding it gives the configuration back |
| UrlState.ValidConfigRoundTrip | src/utils/urlState.ts:17-115 | every configuration the engine accepts survives a shared link |
| UrlState.ReencodeDecoded | src/utils/urlState.ts:17-115 | re-encoding a decoded link decodes to the same configuration |
| UrlState.DecodeSkipsOneHash | src/utils/urlState.ts:46 | one leading '#' is ignored |
| UrlState.DecodeKeepsReusedLetter | src/utils/urlState.ts:89-99 | a link that uses one letter on two cables decodes, and only the engine refuses it |
| UrlState.ReusedLetterRefused | src/engine/plugboard.ts:41-54 | the engine refuses cables AB and AC, naming the reused letter A |
| UrlState.DefaultRotorsText | src/utils/urlState.ts:20-23 | the default rotors are written `I-01-A.II-01-A.III-01-A` |
| UrlState.EncodeLayout | src/utils/urlState.ts:17-42 | the link is `r=` slots `&f=` reflector, then `&g=` only with a Greek rotor and `&p=` only with cables |
| UrlState.EncodeSlotsAndCables | src/utils/urlState.ts:22-37 | ring settings are padded to two digits (`Beta-05-K`, `V-26-Z`); cables are written `AB.CD` |
| Tutorial.TutorialSteps | src/hooks/useTutorial.ts:32-87 | steps.length + 2 entries, each knowing its index and the count; a key bookend and a lamp bookend, both described; entry i+1 copies signal step i and is described exactly when `COMPONENT_DESCRIPTIONS` has its `component-direction` key |
| Tutorial.BuildTutorialSteps | src/hooks/useTutorial.ts:32-87 | the loop pushing entries builds exactly that list |
| Tutorial.KeyPressTutorial | src/hooks/useTutorial.ts:32-87 | a key press's tutorial has 11 entries, 13 on an M4; it starts with the key, hands each letter to the next entry, and ends with a lamp different from the key |
| Tutorial.PathDescribed | src/hooks/useTutorial.ts:5-66 | every stage of the signal path has a description, except the Greek rotor's two stages on an M4 |
| Tutorial.KeyPressDescriptions | src/hooks/useTutorial.ts:5-66 | on a three-rotor machine every entry has a description; on an M4 every entry but the two Greek-rotor entries (6th and 8th), which get the empty description |
| Tutorial.TutorialFor | src/hooks/useTutorial.ts:104-116 | no entries exactly when the machine cannot be built or the letter is refused |
| Tutorial.TutorialFollowsSignal | src/hooks/useTutorial.ts:104-116 | for a buildable configuration and a letter, the tutorial has 11 or 13 entries chained from the key to a different lamp |
| Tutorial.NextStep | src/hooks/useTutorial.ts:120-122 | nextStep moves one entry on, stopping at the last, and stays in range |
| Tutorial.PrevStep | src/hooks/useTutorial.ts:124-126 | prevStep moves one entry back, stopping at the first |
| Tutorial.GoToStep | src/hooks/useTutorial.ts:128-130 | goToStep stays in [0, len-1] and keeps an in-range request |
| Tutorial.GoToStepNearest | src/hooks/useTutorial.ts:128-130 | the step chosen is one nearest to the request |
| Tutorial.NextThenPrev | src/hooks/useTutorial.ts:120-126 | next then previous returns to the same entry, except from the last |
| Tutorial.PrevThenNext | src/hooks/useTutorial.ts:120-126 | previous then next returns to the same entry, except from the first |
| Tutorial.NextTimesStops | src/hooks/useTutorial.ts:120-122 | n presses of next move n entries on but never past the last |
| Tutorial.UpperLetter | src/hooks/useTutorial.ts:138-139 | an accepted key upper-cases to one letter A–Z |
| Tutorial.UpdateInputLetter | src/hooks/useTutorial.ts:137-143 | an accepted letter is stored upper-cased and resets the step to 0; anything else changes nothing |
| Tutorial.UpdateInputLetterCases | src/hooks/useTutorial.ts:137-143 | lower-case keys choose the same letter as upper-case ones; digits and longer strings are ignored |
| Tutorial.UpdateInputLetterTwice | src/hooks/useTutorial.ts:137-143 | updating twice with the same key is the same as once |
| TabNav.IndexOf | src/components/layout/TabNav.tsx:20 | every tab has exactly one index in the bar |
| TabNav.NextIndex | src/components/layout/TabNav.tsx:20-31 | nextIndex is -1 exactly for keys other than the arrows, Home and End; otherwise it lies in 0..2 |
| TabNav.HandleKeyDown | src/components/layout/TabNav.tsx:33-36 | the callback fires exactly when nextIndex is not -1, with the tab at that index |
| TabNav.ArrowSteps | src/components/layout/TabNav.tsx:23-26 | ArrowRight moves one tab on and wraps from the last to the first; ArrowLeft moves back and wraps from the first to the last |
| TabNav.ArrowsInverse | src/components/layout/TabNav.tsx:23-26 | ArrowLeft undoes ArrowRight and ArrowRight undoes ArrowLeft, from every tab |
| TabNav.RightTimesCycles | src/components/layout/TabNav.tsx:23-24 | n presses of ArrowRight land n tabs on, counted modulo 3 |
| TabNav.HomeEndOthers | src/components/layout/TabNav.tsx:27-36 | Home selects the first tab and End the last; any other key leaves the tab unchanged |
| Frequency.Count | src/components/simulator/FrequencyAnalysis.tsx:11-13 | a character occurs no more often than the text is long |
| Frequency.GetFrequencies | src/components/simulator/FrequencyAnalysis.tsx:8-15 | the map's keys are exactly the letters A–Z, each mapped to its number of occurrences in the text |
| Frequency.CountsSumSnoc | src/components/simulator/FrequencyAnalysis.tsx:11-13 | one more character adds one to the total of the distinct letters it is among, and nothing otherwise |
| Frequency.AlphabetLetters | src/components/simulator/FrequencyAnalysis.tsx:10 | the keys written first are exactly the letters A–Z, each once |
| Frequency.LettersSum | src/components/simulator/FrequencyAnalysis.tsx:8-15 | over any list naming each letter once, the counts add up to the number of letters in the text |
| Frequency.FrequenciesSum | src/components/simulator/FrequencyAnalysis.tsx:8-15 | the 26 counts add up to the number of letters A–Z in the text, which is at most its length |
| Frequency.NonLettersIgnored | src/components/simulator/FrequencyAnalysis.tsx:12 | a character outside A–Z changes no count |

## Left out

- Strings are sequences of Unicode scalar values. JavaScript strings are UTF-16 code units, so a character outside the Basic Multilingual Plane counts as one character here, not as two code units. `Array.from` and `for … of` iterate by code point in both.
- `URLSearchParams` decoding: percent escapes and `+` are not decoded. A query is split on `&`, each entry at its first `=`, and the first entry with a name wins.
- `Number()` parsing: only strings of decimal digits are numbers (the empty string is 0). Forms such as `"1e1"`, `"0x1A"`, `" 5"` or `"5.0"`, which `Number` also accepts, are refused as NaN.
- `readConfigFromURL` and `writeConfigToURL` (src/utils/urlState.ts:118-128) are browser I/O on `window.location` and `history`.
- The header comment of src/utils/urlState.ts:4-6 shows the entry names `rotors=`, `ref=`, `greek=` and `plug=`. The code writes and reads `r=`, `f=`, `g=` and `p=`, and the model follows the code.
- Like the code, `UrlState.Decode` does not check letter reuse or more than 13 pairs; `UrlState.DecodeKeepsReusedLetter` records this.
- UrlState.EncodeLayout: the full default link `r=I-01-A.II-01-A.III-01-A&f=UKW-B` is not proved as one literal string, because that equality is too expensive for the solver. Its rotor part and the general layout are proved.
- Machine.EncryptMessage: the two literal ciphertext vectors of tests/engine/enigma.test.ts are not proved. They are `AAAAAAAAAA` to `BDZGOWCXLT` (rotors I/II/III at AAA, UKW-B) and `HELLOWORLD` to `JCRNLYASZP` (rotors IV/V/II, rings 14/09/24, ten cables). Ten key presses through the literal wiring tables are beyond the solver's resource limit. The other vectors there check no literal ciphertext. The Q-E-V `AAAAA` run, the III-I-II `ABCDEF` run with UKW-C and the 52-letter run check round trips and no self-encryption, which MessageReciprocal and CipherShape prove for every configuration and message. The double-step run checks rotor positions only, which DoubleStepScenario proves.
- Tutorial entries keep `described` (whether `COMPONENT_DESCRIPTIONS` has an entry) instead of the label and description prose; the prose is not modelled.
- The React state plumbing of `useTutorial` is not modelled (`useState`, `useMemo`, `useCallback`). That includes the `updateConfig` reset of the step to 0.
- `preventDefault` in `handleKeyDown` (src/components/layout/TabNav.tsx:34) is a DOM side effect and is not modelled.
- `maxCount` and `heightPct` (src/components/simulator/FrequencyAnalysis.tsx:21-31) are floating-point display values and are not modelled.
- Ring settings, tutorial step indices and tab indices are integers here. The source takes any JavaScript number. The check at src/engine/rotor.ts:45-47 lets a fractional ring setting such as 1.5 through, and NaN too, since every comparison with NaN is false; such a rotor then computes with fractional or NaN offsets. Non-integer numbers are not modelled.
- Exceptions are modelled as `Result` failures carrying an error variant; the message text is not modelled.
- Plugboards.Plugboard.Swap: its requires asks for an index 0..25, which is what every caller in the engine passes. The source does not check it; another index would read `undefined` from the swap table.
- Rotors.Rotor.ResetPosition and Reflectors.Reflect: their requires ask for a letter or an index 0..25, which is what every caller in the engine passes. The source does not check its argument; a stray value would produce an out-of-range position or `undefined`.
- Plugboards: pair letters have the type `Letter`, which here admits only 'A'..'Z'. This is a restriction: src/types/index.ts:15 declares `type Letter = string`, and the plugboard never checks that a letter is A–Z. A pair with another character is not modelled.
- The class `Rotor` keeps its tables as immutable sequences built by the constructor's loop; `Array` aliasing is not modelled because the tables are never written after construction.
- `src/types/index.ts` is stale, so the data shapes follow `enigma.ts`. There is an optional Greek rotor, three or four positions, and a `rotor-g` trace component.
