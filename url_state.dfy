/**
 * Shareable links (src/utils/urlState.ts): a machine configuration written
 * as the hash fragment `r=I-01-A.II-01-A.III-01-A&f=UKW-B`, followed by
 * `&g=Beta-01-A` on an M4 and `&p=AB.CD` when cables are plugged, and read
 * back from such a fragment.
 */
module UrlState {
  import opened Wrappers
  import opened Alphabet
  import opened Wirings
  import opened Plugboards
  import opened Machine

  // ---------------------------------------------------------------------------
  // `split` and `join` with a one-character separator

  /** `s.split(sep)`: each occurrence of `sep` ends a piece, and there is always at least one piece. */
  function Split(s: string, sep: char): (parts: seq<string>)
    ensures |parts| >= 1
    ensures forall i :: 0 <= i < |parts| ==> sep !in parts[i]
    decreases |s|
  {
    if s == [] then [""]
    else if s[0] == sep then [""] + Split(s[1..], sep)
    else
      var rest := Split(s[1..], sep);
      assert forall i :: 1 <= i < |rest| ==> sep !in rest[i];
      [[s[0]] + rest[0]] + rest[1..]
  }

  /** `parts.join(sep)`. */
  function Join(parts: seq<string>, sep: char): string
    decreases |parts|
  {
    if |parts| == 0 then ""
    else if |parts| == 1 then parts[0]
    else parts[0] + [sep] + Join(parts[1..], sep)
  }

  /** Joining the pieces of a split gives back the string. */
  lemma {:induction false} JoinSplit(s: string, sep: char)
    ensures Join(Split(s, sep), sep) == s
    decreases |s|
  {
    if s != [] {
      JoinSplit(s[1..], sep);
      var rest := Split(s[1..], sep);
      if s[0] == sep {
        assert Split(s, sep) == [""] + rest;
        assert ([""] + rest)[1..] == rest;
      } else if |rest| > 1 {
        assert Split(s, sep)[1..] == rest[1..];
        assert Join(rest, sep) == rest[0] + [sep] + Join(rest[1..], sep);
      }
    }
  }

  /** A string without the separator is one piece. */
  lemma {:induction false} SplitWhole(a: string, sep: char)
    requires sep !in a
    ensures Split(a, sep) == [a]
    decreases |a|
  {
    if a != [] {
      SplitWhole(a[1..], sep);
      assert [a[0]] + a[1..] == a;
    }
  }

  /** The first separator ends the first piece. */
  lemma {:induction false} SplitFirst(a: string, b: string, sep: char)
    requires sep !in a
    ensures Split(a + [sep] + b, sep) == [a] + Split(b, sep)
    decreases |a|
  {
    if a == [] {
      assert a + [sep] + b == [sep] + b;
      assert ([sep] + b)[1..] == b;
    } else {
      SplitFirst(a[1..], b, sep);
      assert (a + [sep] + b)[1..] == a[1..] + [sep] + b;
      assert [a[0]] + a[1..] == a;
    }
  }

  /** Splitting a join of pieces free of the separator gives back the pieces. */
  lemma {:induction false} SplitJoin(parts: seq<string>, sep: char)
    requires |parts| >= 1
    requires forall i :: 0 <= i < |parts| ==> sep !in parts[i]
    ensures Split(Join(parts, sep), sep) == parts
    decreases |parts|
  {
    if |parts| == 1 {
      SplitWhole(parts[0], sep);
    } else {
      SplitJoin(parts[1..], sep);
      SplitFirst(parts[0], Join(parts[1..], sep), sep);
      assert [parts[0]] + parts[1..] == parts;
    }
  }

  // ---------------------------------------------------------------------------
  // Numbers: `String(n).padStart(2, '0')` and `Number(s)`

  predicate IsDigit(c: char) {
    '0' <= c <= '9'
  }

  predicate AllDigits(s: string) {
    forall i :: 0 <= i < |s| ==> IsDigit(s[i])
  }

  function DigitChar(d: int): (c: char)
    requires 0 <= d < 10
    ensures IsDigit(c) && c as int - '0' as int == d
  {
    ('0' as int + d) as char
  }

  function DigitValue(c: char): (d: int)
    requires IsDigit(c)
    ensures 0 <= d < 10 && DigitChar(d) == c
  {
    c as int - '0' as int
  }

  /** `String(n)` for a natural number: its decimal digits, without leading zeros. */
  function NatText(n: nat): (s: string)
    ensures |s| >= 1 && AllDigits(s)
    decreases n
  {
    if n < 10 then [DigitChar(n)] else NatText(n / 10) + [DigitChar(n % 10)]
  }

  /** `String(n)` for an integer. */
  function DecimalText(n: int): string {
    if n < 0 then "-" + NatText(-n) else NatText(n)
  }

  /** `padStart(2, '0')`. */
  function PadStart2(s: string): (t: string)
    ensures |t| == if |s| >= 2 then |s| else 2
  {
    if |s| >= 2 then s else if |s| == 1 then "0" + s else "00"
  }

  /** A ring setting as the link writes it. */
  function Pad2(n: int): string {
    PadStart2(DecimalText(n))
  }

  /** The value of a string of decimal digits (0 for the empty string). */
  function DigitsValue(s: string): nat
    requires AllDigits(s)
    decreases |s|
  {
    if s == [] then 0 else DigitsValue(s[..|s| - 1]) * 10 + DigitValue(s[|s| - 1])
  }

  /**
   * `Number(s)` of a string or of `undefined` (`None`); `None` as a result
   * is NaN. Only strings of decimal digits are numbers here, the empty
   * string being 0.
   */
  function NumberOf(s: Option<string>): (n: Option<int>)
    ensures n.Some? <==> s.Some? && AllDigits(s.value)
    ensures n.Some? ==> n.value >= 0
  {
    match s
    case None => None
    case Some(t) => if AllDigits(t) then Some(DigitsValue(t)) else None
  }

  /** `Number(String(n)) == n` for every natural number. */
  lemma {:induction false} NumberOfDecimal(n: nat)
    ensures NumberOf(Some(DecimalText(n))) == Some(n)
    decreases n
  {
    var s := DecimalText(n);
    if n < 10 {
      assert s == [DigitChar(n)] && s[..0] == [];
      assert DigitValue(s[0]) == n;
      assert DigitsValue(s) == DigitsValue([]) * 10 + n;
    } else {
      NumberOfDecimal(n / 10);
      assert s == NatText(n / 10) + [DigitChar(n % 10)];
      assert s[..|s| - 1] == NatText(n / 10);
    }
  }

  /** A ring setting 1..26 is written as two digits, and reads back as itself. */
  lemma Pad2RoundTrip(n: int)
    requires 1 <= n <= 26
    ensures |Pad2(n)| == 2 && AllDigits(Pad2(n))
    ensures NumberOf(Some(Pad2(n))) == Some(n)
  {
    if n < 10 {
      var s := Pad2(n);
      assert s == "0" + [DigitChar(n)];
      assert s[..1] == "0" && s[..1][..0] == [];
      assert DigitsValue(s[..1]) == DigitsValue([]) * 10 + 0;
      assert DigitsValue(s) == DigitsValue(s[..1]) * 10 + n;
    } else {
      NumberOfDecimal(n);
      assert NatText(n) == NatText(n / 10) + [DigitChar(n % 10)];
    }
  }

  // ---------------------------------------------------------------------------
  // Names as the link spells them (`VALID_ROTORS`, `VALID_GREEK`, `VALID_REFLECTORS`)

  function RotorNameText(n: RotorName): string {
    match n
    case I => "I"
    case II => "II"
    case III => "III"
    case IV => "IV"
    case V => "V"
  }

  /** `VALID_ROTORS.has(s)`, with the name it stands for. */
  function RotorNameFrom(s: string): Option<RotorName> {
    if s == "I" then Some(I)
    else if s == "II" then Some(II)
    else if s == "III" then Some(III)
    else if s == "IV" then Some(IV)
    else if s == "V" then Some(V)
    else None
  }

  function GreekNameText(n: GreekName): string {
    match n
    case Beta => "Beta"
    case Gamma => "Gamma"
  }

  /** `VALID_GREEK.has(s)`, with the name it stands for. */
  function GreekNameFrom(s: string): Option<GreekName> {
    if s == "Beta" then Some(Beta)
    else if s == "Gamma" then Some(Gamma)
    else None
  }

  function ReflectorNameText(f: ReflectorName): string {
    match f
    case UkwB => "UKW-B"
    case UkwC => "UKW-C"
    case UkwBThin => "UKW-B-thin"
    case UkwCThin => "UKW-C-thin"
  }

  /** `VALID_REFLECTORS.has(s)`, with the name it stands for. */
  function ReflectorNameFrom(s: string): Option<ReflectorName> {
    if s == "UKW-B" then Some(UkwB)
    else if s == "UKW-C" then Some(UkwC)
    else if s == "UKW-B-thin" then Some(UkwBThin)
    else if s == "UKW-C-thin" then Some(UkwCThin)
    else None
  }

  /** A name is read back exactly from its own spelling, and from nothing else. */
  lemma NameSpellings(s: string, r: RotorName, g: GreekName, f: ReflectorName)
    ensures RotorNameFrom(s) == Some(r) <==> s == RotorNameText(r)
    ensures GreekNameFrom(s) == Some(g) <==> s == GreekNameText(g)
    ensures ReflectorNameFrom(s) == Some(f) <==> s == ReflectorNameText(f)
  {
  }

  /** What the slot fields of a link may not contain: rotor and Greek names have none of `-.&=?`. */
  lemma NameCharacters(r: RotorName, g: GreekName, f: ReflectorName)
    ensures Avoids(RotorNameText(r), {'-', '.', '&', '=', '?'})
    ensures Avoids(GreekNameText(g), {'-', '.', '&', '=', '?'})
    ensures Avoids(ReflectorNameText(f), {'.', '&', '=', '?'})
  {
  }

  // ---------------------------------------------------------------------------
  // `URLSearchParams`

  /** One name/value entry: the name runs to the first '=', the value is the rest (empty without '='). */
  function Entry(piece: string): (e: (string, string))
    ensures '=' !in e.0
    ensures '=' in piece ==> piece == e.0 + "=" + e.1
    ensures '=' !in piece ==> e == (piece, "")
  {
    var kv := Split(piece, '=');
    SplitAtFirst(piece, '=');
    (kv[0], Join(kv[1..], '='))
  }

  /** A string with the separator is its first piece, the separator, and the rest joined; one without it is one piece. */
  lemma SplitAtFirst(s: string, sep: char)
    ensures sep in s ==> |Split(s, sep)| >= 2 && s == Split(s, sep)[0] + [sep] + Join(Split(s, sep)[1..], sep)
    ensures sep !in s ==> Split(s, sep) == [s]
  {
    var parts := Split(s, sep);
    JoinSplit(s, sep);
    if sep !in s {
      SplitWhole(s, sep);
    }
  }

  /** The entries of the non-empty '&'-separated pieces, in order. */
  function Entries(pieces: seq<string>): (entries: seq<(string, string)>)
    ensures |entries| <= |pieces|
    ensures forall i :: 0 <= i < |entries| ==> '=' !in entries[i].0
    ensures (forall i :: 0 <= i < |pieces| ==> pieces[i] != "") ==>
      entries == seq(|pieces|, i requires 0 <= i < |pieces| => Entry(pieces[i]))
    decreases |pieces|
  {
    if pieces == [] then []
    else if pieces[0] == "" then Entries(pieces[1..])
    else [Entry(pieces[0])] + Entries(pieces[1..])
  }

  /** The pieces can be read in two runs: the entries of a concatenation are the two runs' entries. */
  lemma {:induction false} EntriesAppend(ps: seq<string>, qs: seq<string>)
    ensures Entries(ps + qs) == Entries(ps) + Entries(qs)
    decreases |ps|
  {
    if ps == [] {
      assert ps + qs == qs;
    } else {
      assert (ps + qs)[0] == ps[0];
      assert (ps + qs)[1..] == ps[1..] + qs;
      EntriesAppend(ps[1..], qs);
    }
  }

  /** An empty piece (from `&&`, or a leading or trailing '&') adds no entry, wherever it is. */
  lemma EntriesSkipEmpty(ps: seq<string>, qs: seq<string>)
    ensures Entries(ps + [""] + qs) == Entries(ps + qs)
  {
    assert Entries([""]) == [] by {
      assert [""][1..] == [];
    }
    EntriesAppend(ps, [""]);
    assert Entries(ps + [""]) == Entries(ps);
    EntriesAppend(ps + [""], qs);
    EntriesAppend(ps, qs);
  }

  /** `new URLSearchParams(query)`: a leading '?' is dropped. */
  function Params(query: string): (entries: seq<(string, string)>)
    ensures query == "" || query == "?" ==> entries == []
    ensures forall i :: 0 <= i < |entries| ==> '=' !in entries[i].0
  {
    var q := if |query| > 0 && query[0] == '?' then query[1..] else query;
    Entries(Split(q, '&'))
  }

  /** `params.get(name)`: the value of the first entry with that name, `null` (`None`) without one. */
  function Get(entries: seq<(string, string)>, name: string): (v: Option<string>)
    ensures v.Some? <==> exists i :: 0 <= i < |entries| && entries[i].0 == name
    ensures v.Some? ==> exists i ::
      && 0 <= i < |entries| && entries[i] == (name, v.value)
      && forall j :: 0 <= j < i ==> entries[j].0 != name
    decreases |entries|
  {
    if entries == [] then None
    else if entries[0].0 == name then Some(entries[0].1)
    else
      var v := Get(entries[1..], name);
      assert forall i :: 1 <= i < |entries| ==> entries[i] == entries[1..][i - 1];
      v
  }

  // ---------------------------------------------------------------------------
  // Decoding

  /** Element `i` of a destructured array, `undefined` (`None`) past its end. */
  function Field(fields: seq<string>, i: nat): Option<string> {
    if i < |fields| then Some(fields[i]) else None
  }

  /** `Number(ringStr)` is a number in 1..26. */
  function RingFrom(ringStr: Option<string>): (r: Option<int>)
    ensures r.Some? ==> 1 <= r.value <= 26
    ensures r.Some? <==> NumberOf(ringStr).Some? && 1 <= NumberOf(ringStr).value <= 26
    ensures r.Some? ==> r == NumberOf(ringStr)
  {
    var n := NumberOf(ringStr);
    if n.None? || n.value < 1 || n.value > 26 then None else n
  }

  /** The position field is present and passes `LETTER_RE`, /^[A-Z]$/. */
  predicate GoodPosition(position: Option<string>) {
    position.Some? && IsSingleLetter(position.value)
  }

  /** `parseRotor`: `name-ring-position`, where fields past the third are ignored. */
  function ParseRotor(part: string): (r: Option<RotorConfig>)
    ensures r.Some? ==> GoodSlot(r.value.ringSetting, r.value.position)
    ensures r.Some? ==> Split(part, '-')[0] == RotorNameText(r.value.name)
    ensures var fields := Split(part, '-');
      r.Some? <==> RotorNameFrom(fields[0]).Some? && RingFrom(Field(fields, 1)).Some? && GoodPosition(Field(fields, 2))
    ensures var fields := Split(part, '-');
      r.Some? ==> NumberOf(Field(fields, 1)) == Some(r.value.ringSetting) && Field(fields, 2) == Some(r.value.position)
  {
    var fields := Split(part, '-');
    var ringSetting := RingFrom(Field(fields, 1));
    var position := Field(fields, 2);
    match RotorNameFrom(fields[0])
    case None => None
    case Some(name) =>
      if ringSetting.None? then None
      else if !GoodPosition(position) then None
      else Some(RotorConfig(name, ringSetting.value, position.value))
  }

  /** The Greek rotor field, read like a rotor but against `VALID_GREEK`. */
  function ParseGreek(greekStr: string): (g: Option<GreekConfig>)
    ensures g.Some? ==> GoodSlot(g.value.ringSetting, g.value.position)
    ensures g.Some? ==> Split(greekStr, '-')[0] == GreekNameText(g.value.name)
    ensures var fields := Split(greekStr, '-');
      g.Some? <==> GreekNameFrom(fields[0]).Some? && RingFrom(Field(fields, 1)).Some? && GoodPosition(Field(fields, 2))
    ensures var fields := Split(greekStr, '-');
      g.Some? ==> NumberOf(Field(fields, 1)) == Some(g.value.ringSetting) && Field(fields, 2) == Some(g.value.position)
  {
    var fields := Split(greekStr, '-');
    var ringSetting := RingFrom(Field(fields, 1));
    var position := Field(fields, 2);
    match GreekNameFrom(fields[0])
    case None => None
    case Some(name) =>
      if ringSetting.None? then None
      else if !GoodPosition(position) then None
      else Some(GreekConfig(name, ringSetting.value, position.value))
  }

  /** One plug field: two letters A–Z, and not the same letter twice. */
  function ParsePair(piece: string): Option<Pair> {
    if |piece| != 2 || !IsLetter(piece[0]) || !IsLetter(piece[1]) then None
    else if piece[0] == piece[1] then None
    else Some((piece[0], piece[1]))
  }

  /** A cable as the link writes it. */
  function PairText(p: Pair): string {
    [p.0, p.1]
  }

  /** The plug fields in order, or `None` as soon as one is refused. */
  function ParsePairs(pieces: seq<string>): (r: Option<seq<Pair>>)
    ensures r.None? <==> exists i :: 0 <= i < |pieces| && ParsePair(pieces[i]).None?
    ensures r.Some? ==> |r.value| == |pieces| && NoSelfPairs(r.value)
    ensures r.Some? ==> forall i :: 0 <= i < |pieces| ==> PairText(r.value[i]) == pieces[i]
    decreases |pieces|
  {
    if pieces == [] then Some([])
    else
      var front := pieces[..|pieces| - 1];
      assert forall i :: 0 <= i < |front| ==> front[i] == pieces[i];
      match ParsePairs(front)
      case None => None
      case Some(pairs) =>
        match ParsePair(pieces[|pieces| - 1])
        case None => None
        case Some(p) => Some(pairs + [p])
  }

  /** `p=`: absent or empty means no cables. */
  function PlugsFrom(plugStr: Option<string>): (r: Option<seq<Pair>>)
    ensures r.Some? ==> NoSelfPairs(r.value)
    ensures plugStr.None? || plugStr.value == "" ==> r == Some([])
    ensures plugStr.Some? && plugStr.value != "" ==>
      (r.None? ==> exists i :: 0 <= i < |Split(plugStr.value, '.')| && ParsePair(Split(plugStr.value, '.')[i]).None?)
    ensures plugStr.Some? && plugStr.value != "" ==>
      ((exists i :: 0 <= i < |Split(plugStr.value, '.')| && ParsePair(Split(plugStr.value, '.')[i]).None?) ==> r.None?)
    ensures plugStr.Some? && plugStr.value != "" ==> r.Some? ==>
      && |r.value| == |Split(plugStr.value, '.')|
      && forall i :: 0 <= i < |r.value| ==> PairText(r.value[i]) == Split(plugStr.value, '.')[i]
  {
    if plugStr.None? || plugStr.value == "" then Some([])
    else ParsePairs(Split(plugStr.value, '.'))
  }

  /** `g=`: absent or empty means no Greek rotor (`Some(None)`); `None` is a refused field. */
  function GreekFrom(greekStr: Option<string>): (r: Option<Option<GreekConfig>>)
    ensures r.Some? && r.value.Some? ==> GoodSlot(r.value.value.ringSetting, r.value.value.position)
    ensures greekStr.None? || greekStr.value == "" ==> r == Some(None)
    ensures greekStr.Some? && greekStr.value != "" ==>
      && (r.None? <==> ParseGreek(greekStr.value).None?)
      && (r.Some? ==> r.value.Some? && r.value == ParseGreek(greekStr.value))
  {
    if greekStr.None? || greekStr.value == "" then Some(None)
    else
      match ParseGreek(greekStr.value)
      case None => None
      case Some(g) => Some(Some(g))
  }

  /** The fragment without its leading '#'. */
  function Clean(hash: string): string {
    if |hash| > 0 && hash[0] == '#' then hash[1..] else hash
  }

  /** Every slot has a ring setting 1..26 and a one-letter position, so the encoder writes it as three plain fields. */
  ghost predicate Writable(c: MachineConfig) {
    && GoodSlot(c.left.ringSetting, c.left.position)
    && GoodSlot(c.middle.ringSetting, c.middle.position)
    && GoodSlot(c.right.ringSetting, c.right.position)
    && (c.greekRotor.Some? ==> GoodSlot(c.greekRotor.value.ringSetting, c.greekRotor.value.position))
  }

  /** A configuration a link can carry: what `decodeConfig` checks, which is less than the engine checks. */
  ghost predicate Shareable(c: MachineConfig) {
    && c.left.name != c.middle.name && c.left.name != c.right.name && c.middle.name != c.right.name
    && (c.greekRotor.Some? <==> IsThin(c.reflector))
    && Writable(c)
    && NoSelfPairs(c.plugboardPairs)
  }

  /** The `r` entry: present, not empty, and three '.'-separated slots that each read as a rotor. */
  function RotorsFrom(rotorStr: Option<string>): (r: Option<(RotorConfig, RotorConfig, RotorConfig)>)
    ensures r.Some? ==> rotorStr.Some? && |Split(rotorStr.value, '.')| == 3
    ensures r.Some? ==> GoodSlot(r.value.0.ringSetting, r.value.0.position)
    ensures r.Some? ==> GoodSlot(r.value.1.ringSetting, r.value.1.position)
    ensures r.Some? ==> GoodSlot(r.value.2.ringSetting, r.value.2.position)
    ensures r.Some? <==>
      && rotorStr.Some?
      && var parts := Split(rotorStr.value, '.');
         |parts| == 3 && ParseRotor(parts[0]).Some? && ParseRotor(parts[1]).Some? && ParseRotor(parts[2]).Some?
    ensures r.Some? ==>
      var parts := Split(rotorStr.value, '.');
      && ParseRotor(parts[0]) == Some(r.value.0)
      && ParseRotor(parts[1]) == Some(r.value.1)
      && ParseRotor(parts[2]) == Some(r.value.2)
  {
    if rotorStr.None? || rotorStr.value == "" then None
    else
      var rotorParts := Split(rotorStr.value, '.');
      if |rotorParts| != 3 then None
      else
        var r0, r1, r2 := ParseRotor(rotorParts[0]), ParseRotor(rotorParts[1]), ParseRotor(rotorParts[2]);
        if r0.None? || r1.None? || r2.None? then None
        else Some((r0.value, r1.value, r2.value))
  }

  /** The `f` entry names one of the four reflectors. */
  function ReflectorFrom(reflector: Option<string>): (f: Option<ReflectorName>)
    ensures f.Some? ==> reflector == Some(ReflectorNameText(f.value))
    ensures forall g :: f == Some(g) <==> reflector == Some(ReflectorNameText(g))
  {
    if reflector.None? then None else ReflectorNameFrom(reflector.value)
  }

  /** The last checks: three different rotors, and a Greek rotor exactly when the reflector is thin. */
  function Assemble(rotors: (RotorConfig, RotorConfig, RotorConfig), f: ReflectorName,
                    greekRotor: Option<GreekConfig>, plugboardPairs: seq<Pair>): (r: Option<MachineConfig>)
    ensures r.Some? <==>
      && rotors.0.name != rotors.1.name && rotors.0.name != rotors.2.name && rotors.1.name != rotors.2.name
      && (greekRotor.Some? <==> IsThin(f))
    ensures r.Some? ==>
      && (r.value.left, r.value.middle, r.value.right) == rotors
      && r.value.reflector == f && r.value.greekRotor == greekRotor && r.value.plugboardPairs == plugboardPairs
  {
    var (r0, r1, r2) := rotors;
    if r0.name == r1.name || r0.name == r2.name || r1.name == r2.name then None
    else if IsThin(f) && greekRotor.None? then None
    else if !IsThin(f) && greekRotor.Some? then None
    else Some(MachineConfig(r0, r1, r2, f, plugboardPairs, greekRotor))
  }

  /** `decodeConfig`: the configuration a fragment describes, or `null` (`None`). */
  function Decode(hash: string): (r: Option<MachineConfig>)
    ensures Clean(hash) == "" ==> r.None?
    ensures r.Some? ==> Shareable(r.value)
    ensures r.Some? ==> Get(Params(Clean(hash)), "r").Some? && |Split(Get(Params(Clean(hash)), "r").value, '.')| == 3
    ensures r.Some? ==> Get(Params(Clean(hash)), "f") == Some(ReflectorNameText(r.value.reflector))
    ensures r.Some? ==>
      var params := Params(Clean(hash));
      && RotorsFrom(Get(params, "r")) == Some((r.value.left, r.value.middle, r.value.right))
      && ReflectorFrom(Get(params, "f")) == Some(r.value.reflector)
      && GreekFrom(Get(params, "g")) == Some(r.value.greekRotor)
      && PlugsFrom(Get(params, "p")) == Some(r.value.plugboardPairs)
  {
    var clean := Clean(hash);
    if clean == "" then None
    else
      var params := Params(clean);
      match RotorsFrom(Get(params, "r"))
      case None => None
      case Some(rotors) =>
        match ReflectorFrom(Get(params, "f"))
        case None => None
        case Some(f) =>
          match GreekFrom(Get(params, "g"))
          case None => None
          case Some(greekRotor) =>
            match PlugsFrom(Get(params, "p"))
            case None => None
            case Some(plugboardPairs) => Assemble(rotors, f, greekRotor, plugboardPairs)
  }

  /**
   * `decodeConfig` gives `c` exactly when the fragment is not empty, its
   * `r`, `f`, `g` and `p` entries read as the slots, reflector, Greek rotor
   * and cables of `c`, the three rotors differ, and there is a Greek rotor
   * exactly when the reflector is thin.
   */
  lemma DecodeExactly(hash: string, c: MachineConfig)
    ensures Decode(hash) == Some(c) <==>
      && Clean(hash) != ""
      && var params := Params(Clean(hash));
         && RotorsFrom(Get(params, "r")) == Some((c.left, c.middle, c.right))
         && ReflectorFrom(Get(params, "f")) == Some(c.reflector)
         && GreekFrom(Get(params, "g")) == Some(c.greekRotor)
         && PlugsFrom(Get(params, "p")) == Some(c.plugboardPairs)
         && c.left.name != c.middle.name && c.left.name != c.right.name && c.middle.name != c.right.name
         && (c.greekRotor.Some? <==> IsThin(c.reflector))
  {
  }

  /** A decoded link has a non-empty `g` entry exactly when its reflector is thin. */
  lemma GreekEntryIffThin(hash: string)
    requires Decode(hash).Some?
    ensures var g := Get(Params(Clean(hash)), "g");
      g.Some? && g.value != "" <==> IsThin(Decode(hash).value.reflector)
  {
  }

  /** A two-digit ring field reads as its number, and is refused outside 1..26 (`00`, `27`). */
  lemma RingOfPad2(n: nat)
    ensures RingFrom(Some(Pad2(n))) == if 1 <= n <= 26 then Some(n) else None
  {
    var s := Pad2(n);
    if n < 10 {
      assert s == "0" + [DigitChar(n)];
      assert s[..1] == "0" && s[..1][..0] == [];
      assert DigitsValue(s[..1]) == DigitsValue([]) * 10 + 0;
      assert DigitsValue(s) == DigitsValue(s[..1]) * 10 + n;
    } else {
      NumberOfDecimal(n);
    }
  }

  /** Three '-'-free fields joined with '-' split back into those fields. */
  lemma SplitSlot(name: string, ring: string, position: string)
    requires '-' !in name && '-' !in ring && '-' !in position
    ensures Split(name + "-" + ring + "-" + position, '-') == [name, ring, position]
  {
    SplitWhole(position, '-');
    SplitFirst(ring, position, '-');
    SplitFirst(name, ring + ['-'] + position, '-');
    assert name + "-" + ring + "-" + position == name + ['-'] + (ring + ['-'] + position);
  }

  /** A slot naming no known rotor is refused: `X-01-A`. */
  lemma UnknownRotorRefused()
    ensures ParseRotor("X-01-A").None?
  {
    SplitSlot("X", "01", "A");
    assert "X-01-A" == "X" + "-" + "01" + "-" + "A";
  }

  /** Ring settings 00 and 27 are refused: `I-00-A`, `I-27-A`. */
  lemma RingOutOfRangeRefused()
    ensures ParseRotor("I-00-A").None? && ParseRotor("I-27-A").None?
  {
    RingZeroRefused();
    RingTwentySevenRefused();
  }

  lemma RingZeroRefused()
    ensures ParseRotor("I-00-A").None?
  {
    RingOfPad2(0);
    assert Pad2(0) == "00";
    SplitSlot("I", "00", "A");
    assert "I-00-A" == "I" + "-" + "00" + "-" + "A";
  }

  lemma RingTwentySevenRefused()
    ensures ParseRotor("I-27-A").None?
  {
    RingOfPad2(27);
    assert Pad2(27) == "27" by {
      assert NatText(27) == NatText(2) + [DigitChar(7)];
    }
    SplitSlot("I", "27", "A");
    assert "I-27-A" == "I" + "-" + "27" + "-" + "A";
  }

  /** A position that is not a letter is refused: `I-01-1`. */
  lemma DigitPositionRefused()
    ensures ParseRotor("I-01-1").None?
  {
    SplitSlot("I", "01", "1");
    assert "I-01-1" == "I" + "-" + "01" + "-" + "1";
    assert !IsSingleLetter("1");
  }

  /** An unknown reflector and a letter plugged to itself are refused: `f=UKW-X`, `p=AA`. */
  lemma ReflectorAndPlugRefused()
    ensures ReflectorFrom(Some("UKW-X")).None?
    ensures PlugsFrom(Some("AA")).None?
  {
    SplitWhole("AA", '.');
    assert ParsePair(Split("AA", '.')[0]).None?;
  }

  /** A rotor entry with two slots, such as `I-01-A.II-01-A`, is refused. */
  lemma TwoSlotsRefused(a: string, b: string)
    requires '.' !in a && '.' !in b
    ensures RotorsFrom(Some(a + "." + b)).None?
  {
    SplitWhole(b, '.');
    SplitFirst(a, b, '.');
    assert a + "." + b == a + ['.'] + b;
  }

  /** The plugboard loop of `decodeConfig`: each piece is checked and pushed in turn, and the first bad one refuses the link. */
  method ReadPlugs(plugStr: string) returns (r: Option<seq<Pair>>)
    ensures r == ParsePairs(Split(plugStr, '.'))
  {
    var pairs := Split(plugStr, '.');
    var plugboardPairs: seq<Pair> := [];
    for k := 0 to |pairs|
      invariant ParsePairs(pairs[..k]) == Some(plugboardPairs)
    {
      var pair := pairs[k];
      assert pairs[..k + 1][..k] == pairs[..k];
      if |pair| != 2 || !IsLetter(pair[0]) || !IsLetter(pair[1]) {
        return None;
      }
      if pair[0] == pair[1] {
        return None;
      }
      plugboardPairs := plugboardPairs + [(pair[0], pair[1])];
    }
    assert pairs[..|pairs|] == pairs;
    return Some(plugboardPairs);
  }

  /** `decodeConfig`, step by step with its early returns. */
  method DecodeConfig(hash: string) returns (r: Option<MachineConfig>)
    ensures r == Decode(hash)
  {
    var clean := Clean(hash);
    if clean == "" {
      return None;
    }
    var params := Params(clean);
    var rotors := RotorsFrom(Get(params, "r"));
    if rotors.None? {
      return None;
    }
    var reflector := ReflectorFrom(Get(params, "f"));
    if reflector.None? {
      return None;
    }
    var greekRotor := GreekFrom(Get(params, "g"));
    if greekRotor.None? {
      return None;
    }
    var plugStr := Get(params, "p");
    var plugboardPairs: seq<Pair> := [];
    if plugStr.Some? && plugStr.value != "" {
      var plugs := ReadPlugs(plugStr.value);
      if plugs.None? {
        return None;
      }
      plugboardPairs := plugs.value;
    }
    r := Assemble(rotors.value, reflector.value, greekRotor.value, plugboardPairs);
  }

  // ---------------------------------------------------------------------------
  // Encoding

  /** `${name}-${String(ringSetting).padStart(2, '0')}-${position}`. */
  function SlotText(name: string, ringSetting: int, position: string): string {
    name + "-" + Pad2(ringSetting) + "-" + position
  }

  function RotorText(r: RotorConfig): string {
    SlotText(RotorNameText(r.name), r.ringSetting, r.position)
  }

  function GreekText(g: GreekConfig): string {
    SlotText(GreekNameText(g.name), g.ringSetting, g.position)
  }

  function PairTexts(pairs: seq<Pair>): (t: seq<string>)
    ensures |t| == |pairs| && forall i :: 0 <= i < |pairs| ==> t[i] == PairText(pairs[i])
  {
    seq(|pairs|, i requires 0 <= i < |pairs| => PairText(pairs[i]))
  }

  /** The rotor entry: the three slots, left to right, joined with '.'. */
  function RotorsText(c: MachineConfig): string {
    Join([RotorText(c.left), RotorText(c.middle), RotorText(c.right)], '.')
  }

  /** The Greek rotor entry, written only on an M4. */
  function GreekField(c: MachineConfig): Option<string> {
    if c.greekRotor.Some? then Some(GreekText(c.greekRotor.value)) else None
  }

  /** The plug entry, written only when there are cables. */
  function PlugsField(c: MachineConfig): Option<string> {
    if |c.plugboardPairs| > 0 then Some(Join(PairTexts(c.plugboardPairs), '.')) else None
  }

  /** Entries `r` and `f`, then `g` and `p` when they are present. */
  function EntriesFor(rotors: string, reflector: string, greek: Option<string>, plugs: Option<string>): seq<(string, string)> {
    [("r", rotors), ("f", reflector)]
    + (if greek.Some? then [("g", greek.value)] else [])
    + (if plugs.Some? then [("p", plugs.value)] else [])
  }

  /** The name/value entries `encodeConfig` pushes, in order. */
  function Fields(c: MachineConfig): seq<(string, string)> {
    EntriesFor(RotorsText(c), ReflectorNameText(c.reflector), GreekField(c), PlugsField(c))
  }

  /** Each entry written `name=value`. */
  function FieldTexts(fields: seq<(string, string)>): (t: seq<string>)
    ensures |t| == |fields|
    ensures forall i :: 0 <= i < |fields| ==> t[i] == fields[i].0 + "=" + fields[i].1
  {
    seq(|fields|, i requires 0 <= i < |fields| => fields[i].0 + "=" + fields[i].1)
  }

  /** `encodeConfig`: the entries joined with '&'. */
  function EncodeConfig(c: MachineConfig): (e: string)
    ensures |e| >= 2 && e[..2] == "r="
  {
    var texts := FieldTexts(Fields(c));
    JoinStart(texts, '&');
    assert texts[0][..2] == "r=";
    Join(texts, '&')
  }

  // ---------------------------------------------------------------------------
  // Round trip

  /** No character of `s` is in `bad`. */
  predicate Avoids(s: string, bad: set<char>) {
    forall i :: 0 <= i < |s| ==> s[i] !in bad
  }

  /** An entry that survives `URLSearchParams` unchanged: a non-empty name, and no '&' or '=' in either half. */
  predicate PlainEntry(e: (string, string)) {
    e.0 != "" && Avoids(e.0, {'&', '=', '?'}) && Avoids(e.1, {'&', '='})
  }

  lemma {:induction false} JoinAvoids(parts: seq<string>, sep: char, bad: set<char>)
    requires sep !in bad
    requires forall i :: 0 <= i < |parts| ==> Avoids(parts[i], bad)
    ensures Avoids(Join(parts, sep), bad)
    decreases |parts|
  {
    if |parts| > 1 {
      JoinAvoids(parts[1..], sep, bad);
    }
  }

  /** A join starts with the first piece. */
  lemma JoinStart(parts: seq<string>, sep: char)
    requires |parts| >= 1
    ensures |Join(parts, sep)| >= |parts[0]| && Join(parts, sep)[..|parts[0]|] == parts[0]
  {
  }

  /** A plain entry is read back as itself. */
  lemma EntryOfText(e: (string, string))
    requires PlainEntry(e)
    ensures Entry(e.0 + "=" + e.1) == e
  {
    SplitFirst(e.0, e.1, '=');
    SplitWhole(e.1, '=');
    assert e.0 + "=" + e.1 == e.0 + ['='] + e.1;
    assert Split(e.0 + "=" + e.1, '=')[1..] == [e.1];
  }

  lemma EntriesOfTexts(fields: seq<(string, string)>)
    requires forall i :: 0 <= i < |fields| ==> PlainEntry(fields[i])
    ensures Entries(FieldTexts(fields)) == fields
  {
    var texts := FieldTexts(fields);
    forall i | 0 <= i < |texts|
      ensures texts[i] != "" && Entry(texts[i]) == fields[i]
    {
      EntryOfText(fields[i]);
      assert texts[i][|fields[i].0|] == '=';
    }
  }

  /** `URLSearchParams` reads back exactly the plain entries that were joined with '&'. */
  lemma ParamsOfTexts(fields: seq<(string, string)>)
    requires |fields| >= 1
    requires forall i :: 0 <= i < |fields| ==> PlainEntry(fields[i])
    ensures Params(Join(FieldTexts(fields), '&')) == fields
  {
    var texts := FieldTexts(fields);
    forall i | 0 <= i < |texts|
      ensures '&' !in texts[i]
    {
      assert texts[i] == fields[i].0 + "=" + fields[i].1;
    }
    SplitJoin(texts, '&');
    JoinStart(texts, '&');
    assert texts[0][0] == fields[0].0[0];
    EntriesOfTexts(fields);
  }

  /** A slot written by the encoder splits back into its name, ring and position, and has no '.', '&', '=' or '?'. */
  lemma SlotFields(name: string, ringSetting: int, position: string)
    requires Avoids(name, {'-', '.', '&', '=', '?'})
    requires GoodSlot(ringSetting, position)
    ensures Split(SlotText(name, ringSetting, position), '-') == [name, Pad2(ringSetting), position]
    ensures Avoids(SlotText(name, ringSetting, position), {'.', '&', '=', '?'})
  {
    var pad := Pad2(ringSetting);
    Pad2RoundTrip(ringSetting);
    SplitWhole(position, '-');
    SplitFirst(pad, position, '-');
    SplitFirst(name, pad + ['-'] + position, '-');
    assert SlotText(name, ringSetting, position) == name + ['-'] + (pad + ['-'] + position);
    SlotAvoids(name, ringSetting, position);
  }

  lemma SlotAvoids(name: string, ringSetting: int, position: string)
    requires Avoids(name, {'-', '.', '&', '=', '?'})
    requires GoodSlot(ringSetting, position)
    ensures Avoids(SlotText(name, ringSetting, position), {'.', '&', '=', '?'})
  {
    var bad := {'.', '&', '=', '?'};
    var pad := Pad2(ringSetting);
    Pad2RoundTrip(ringSetting);
    assert Avoids(name, bad);
    assert Avoids(pad, bad) by {
      forall i | 0 <= i < |pad|
        ensures pad[i] !in bad
      {
        assert IsDigit(pad[i]);
      }
    }
    assert Avoids(position, bad) by {
      assert IsLetter(position[0]);
    }
    AvoidsConcat(name, "-", bad);
    AvoidsConcat(name + "-", pad, bad);
    AvoidsConcat(name + "-" + pad, "-", bad);
    AvoidsConcat(name + "-" + pad + "-", position, bad);
  }

  lemma AvoidsConcat(a: string, b: string, bad: set<char>)
    requires Avoids(a, bad) && Avoids(b, bad)
    ensures Avoids(a + b, bad)
  {
    forall i | 0 <= i < |a + b|
      ensures (a + b)[i] !in bad
    {
      if i < |a| {
        assert (a + b)[i] == a[i];
      } else {
        assert (a + b)[i] == b[i - |a|];
      }
    }
  }

  lemma RotorRoundTrip(r: RotorConfig)
    requires GoodSlot(r.ringSetting, r.position)
    ensures ParseRotor(RotorText(r)) == Some(r)
    ensures Avoids(RotorText(r), {'.', '&', '=', '?'})
  {
    NameCharacters(r.name, Beta, UkwB);
    SlotFields(RotorNameText(r.name), r.ringSetting, r.position);
    NameSpellings(RotorNameText(r.name), r.name, Beta, UkwB);
    var fields := Split(RotorText(r), '-');
    Pad2RoundTrip(r.ringSetting);
    assert Field(fields, 1) == Some(Pad2(r.ringSetting));
    assert RingFrom(Field(fields, 1)) == Some(r.ringSetting);
    assert Field(fields, 2) == Some(r.position);
  }

  lemma GreekRoundTrip(g: GreekConfig)
    requires GoodSlot(g.ringSetting, g.position)
    ensures ParseGreek(GreekText(g)) == Some(g)
    ensures Avoids(GreekText(g), {'.', '&', '=', '?'})
  {
    NameCharacters(I, g.name, UkwB);
    SlotFields(GreekNameText(g.name), g.ringSetting, g.position);
    NameSpellings(GreekNameText(g.name), I, g.name, UkwB);
    var fields := Split(GreekText(g), '-');
    Pad2RoundTrip(g.ringSetting);
    assert Field(fields, 1) == Some(Pad2(g.ringSetting));
    assert RingFrom(Field(fields, 1)) == Some(g.ringSetting);
    assert Field(fields, 2) == Some(g.position);
  }

  lemma {:induction false} PairsRoundTrip(pairs: seq<Pair>)
    requires NoSelfPairs(pairs)
    ensures ParsePairs(PairTexts(pairs)) == Some(pairs)
    decreases |pairs|
  {
    if pairs != [] {
      var front := pairs[..|pairs| - 1];
      PairsRoundTrip(front);
      assert PairTexts(pairs)[..|pairs| - 1] == PairTexts(front);
      assert front + [pairs[|pairs| - 1]] == pairs;
    }
  }

  /** `params.get` on the entries the encoder writes: `g` only with a Greek rotor, `p` only with cables. */
  lemma EntriesLookup(rotors: string, reflector: string, greek: Option<string>, plugs: Option<string>)
    ensures Get(EntriesFor(rotors, reflector, greek, plugs), "r") == Some(rotors)
    ensures Get(EntriesFor(rotors, reflector, greek, plugs), "f") == Some(reflector)
    ensures Get(EntriesFor(rotors, reflector, greek, plugs), "g") == greek
    ensures Get(EntriesFor(rotors, reflector, greek, plugs), "p") == plugs
  {
    var tail := OptionalEntries(greek, plugs);
    OptionalLookup(greek, plugs);
    var fs := EntriesFor(rotors, reflector, greek, plugs);
    assert fs == [("r", rotors)] + ([("f", reflector)] + tail);
    GetSkip(("f", reflector), tail, "g");
    GetSkip(("f", reflector), tail, "p");
    GetSkip(("r", rotors), [("f", reflector)] + tail, "g");
    GetSkip(("r", rotors), [("f", reflector)] + tail, "p");
    GetSkip(("r", rotors), [("f", reflector)] + tail, "f");
  }

  /** The `g` and `p` entries, each only when present. */
  function OptionalEntries(greek: Option<string>, plugs: Option<string>): seq<(string, string)> {
    (if greek.Some? then [("g", greek.value)] else []) + (if plugs.Some? then [("p", plugs.value)] else [])
  }

  lemma OptionalLookup(greek: Option<string>, plugs: Option<string>)
    ensures Get(OptionalEntries(greek, plugs), "g") == greek
    ensures Get(OptionalEntries(greek, plugs), "p") == plugs
  {
    var tail := if plugs.Some? then [("p", plugs.value)] else [];
    assert Get(tail, "p") == plugs && Get(tail, "g") == None;
    if greek.Some? {
      assert OptionalEntries(greek, plugs) == [("g", greek.value)] + tail;
      GetSkip(("g", greek.value), tail, "p");
    } else {
      assert OptionalEntries(greek, plugs) == tail;
    }
  }

  /** An entry with another name is passed over. */
  lemma GetSkip(e: (string, string), entries: seq<(string, string)>, name: string)
    requires e.0 != name
    ensures Get([e] + entries, name) == Get(entries, name)
  {
    assert ([e] + entries)[1..] == entries;
  }

  /** Entries whose values have no '&' or '=' are all plain. */
  lemma EntriesPlain(rotors: string, reflector: string, greek: Option<string>, plugs: Option<string>)
    requires Avoids(rotors, {'&', '='}) && Avoids(reflector, {'&', '='})
    requires greek.Some? ==> Avoids(greek.value, {'&', '='})
    requires plugs.Some? ==> Avoids(plugs.value, {'&', '='})
    ensures forall i :: 0 <= i < |EntriesFor(rotors, reflector, greek, plugs)| ==>
      PlainEntry(EntriesFor(rotors, reflector, greek, plugs)[i])
  {
  }

  /** No value the encoder writes for a configuration with good slots holds '&' or '='. */
  lemma FieldsAvoid(c: MachineConfig)
    requires Writable(c)
    ensures Avoids(RotorsText(c), {'&', '='})
    ensures Avoids(ReflectorNameText(c.reflector), {'&', '='})
    ensures GreekField(c).Some? ==> Avoids(GreekField(c).value, {'&', '='})
    ensures PlugsField(c).Some? ==> Avoids(PlugsField(c).value, {'&', '='})
  {
    RotorRoundTrip(c.left);
    RotorRoundTrip(c.middle);
    RotorRoundTrip(c.right);
    JoinAvoids([RotorText(c.left), RotorText(c.middle), RotorText(c.right)], '.', {'&', '='});
    NameCharacters(I, Beta, c.reflector);
    if c.greekRotor.Some? {
      GreekRoundTrip(c.greekRotor.value);
    }
    JoinAvoids(PairTexts(c.plugboardPairs), '.', {'&', '='});
  }

  /** The encoded text starts with the rotor entry, and `URLSearchParams` reads the encoder's entries back. */
  lemma FieldsRoundTrip(c: MachineConfig)
    requires Writable(c)
    ensures Params(EncodeConfig(c)) == Fields(c)
    ensures Clean(EncodeConfig(c)) == EncodeConfig(c) == Clean("#" + EncodeConfig(c))
  {
    FieldsParams(c);
    var e := EncodeConfig(c);
    assert e[0] == e[..2][0] == 'r';
    assert ("#" + e)[1..] == e;
  }

  lemma FieldsParams(c: MachineConfig)
    requires Writable(c)
    ensures Params(EncodeConfig(c)) == Fields(c)
  {
    FieldsAvoid(c);
    EntriesPlain(RotorsText(c), ReflectorNameText(c.reflector), GreekField(c), PlugsField(c));
    ParamsOfTexts(Fields(c));
  }

  /** The rotor entry splits into the three slots and each reads back as itself. */
  lemma RotorsFieldRoundTrip(c: MachineConfig)
    requires Writable(c)
    ensures Split(RotorsText(c), '.') == [RotorText(c.left), RotorText(c.middle), RotorText(c.right)]
    ensures ParseRotor(RotorText(c.left)) == Some(c.left)
    ensures ParseRotor(RotorText(c.middle)) == Some(c.middle)
    ensures ParseRotor(RotorText(c.right)) == Some(c.right)
    ensures RotorsFrom(Some(RotorsText(c))) == Some((c.left, c.middle, c.right))
  {
    RotorRoundTrip(c.left);
    RotorRoundTrip(c.middle);
    RotorRoundTrip(c.right);
    SplitJoin([RotorText(c.left), RotorText(c.middle), RotorText(c.right)], '.');
  }

  lemma GreekFieldRoundTrip(c: MachineConfig)
    requires Writable(c)
    ensures GreekFrom(GreekField(c)) == Some(c.greekRotor)
  {
    if c.greekRotor.Some? {
      GreekRoundTrip(c.greekRotor.value);
    }
  }

  lemma PlugsFieldRoundTrip(c: MachineConfig)
    requires NoSelfPairs(c.plugboardPairs)
    ensures PlugsFrom(PlugsField(c)) == Some(c.plugboardPairs)
  {
    if |c.plugboardPairs| > 0 {
      var texts := PairTexts(c.plugboardPairs);
      forall i | 0 <= i < |texts|
        ensures '.' !in texts[i]
      {
        assert texts[i] == [c.plugboardPairs[i].0, c.plugboardPairs[i].1];
      }
      SplitJoin(texts, '.');
      PairsRoundTrip(c.plugboardPairs);
    }
  }

  /**
   * `decodeConfig(encodeConfig(c))` gives back `c` for every configuration
   * a link can carry, with or without the leading '#' that the address bar adds.
   */
  lemma DecodeEncode(c: MachineConfig)
    requires Shareable(c)
    ensures Decode(EncodeConfig(c)) == Some(c)
    ensures Decode("#" + EncodeConfig(c)) == Some(c)
  {
    var e := EncodeConfig(c);
    FieldsRoundTrip(c);
    EntriesLookup(RotorsText(c), ReflectorNameText(c.reflector), GreekField(c), PlugsField(c));
    RotorsFieldRoundTrip(c);
    GreekFieldRoundTrip(c);
    PlugsFieldRoundTrip(c);
    NameSpellings(ReflectorNameText(c.reflector), I, Beta, c.reflector);
  }

  /** Every configuration the engine accepts survives a shared link. */
  lemma ValidConfigRoundTrip(c: MachineConfig)
    requires ConfigError(c).None?
    ensures Decode(EncodeConfig(c)) == Some(c)
  {
    ConfigErrorNoneIffValid(c);
    DecodeEncode(c);
  }

  /** Re-sharing a decoded link gives a link to the same configuration. */
  lemma ReencodeDecoded(hash: string)
    requires Decode(hash).Some?
    ensures Decode(EncodeConfig(Decode(hash).value)) == Decode(hash)
  {
    DecodeEncode(Decode(hash).value);
  }

  /**
   * Decoding what the encoder wrote for any configuration with good slots
   * leaves only the last checks: three different rotors, and a Greek rotor
   * exactly when the reflector is thin.
   */
  lemma DecodeWritten(c: MachineConfig)
    requires Writable(c) && NoSelfPairs(c.plugboardPairs)
    ensures Decode(EncodeConfig(c)) == Assemble((c.left, c.middle, c.right), c.reflector, c.greekRotor, c.plugboardPairs)
  {
    FieldsRoundTrip(c);
    EntriesLookup(RotorsText(c), ReflectorNameText(c.reflector), GreekField(c), PlugsField(c));
    RotorsFieldRoundTrip(c);
    GreekFieldRoundTrip(c);
    PlugsFieldRoundTrip(c);
    NameSpellings(ReflectorNameText(c.reflector), I, Beta, c.reflector);
  }

  /**
   * A link whose Greek rotor and reflector do not match is refused, whatever
   * the slots: `r=I-01-A.II-01-A.III-01-A&f=UKW-B-thin` (thin, no `g`) and
   * `r=I-01-A.II-01-A.III-01-A&f=UKW-B&g=Beta-01-A` (standard, with `g`)
   * are two such links.
   */
  lemma GreekMismatchRefused(c: MachineConfig)
    requires Writable(c) && NoSelfPairs(c.plugboardPairs)
    requires c.greekRotor.Some? != IsThin(c.reflector)
    ensures Decode(EncodeConfig(c)).None?
    ensures Decode("#" + EncodeConfig(c)).None?
  {
    DecodeWritten(c);
    FieldsRoundTrip(c);
  }

  /** A link naming the same rotor in two slots is refused. */
  lemma RepeatedRotorRefused(c: MachineConfig)
    requires Writable(c) && NoSelfPairs(c.plugboardPairs)
    requires c.left.name == c.middle.name || c.left.name == c.right.name || c.middle.name == c.right.name
    ensures Decode(EncodeConfig(c)).None?
  {
    DecodeWritten(c);
  }

  /** Only one leading '#' is dropped. */
  lemma DecodeSkipsOneHash(hash: string)
    requires hash == "" || hash[0] != '#'
    ensures Decode("#" + hash) == Decode(hash)
  {
    assert ("#" + hash)[1..] == hash;
  }

  /**
   * The link does not check what the plugboard checks: a letter on two
   * cables is read back, and only building the machine refuses it.
   */
  lemma DecodeKeepsReusedLetter()
    ensures var c := DefaultConfig().(plugboardPairs := [('A', 'B'), ('A', 'C')]);
            Decode(EncodeConfig(c)) == Some(c) && ConfigError(c) == Some(BadPlugboard(LetterReused('A')))
  {
    var c := DefaultConfig().(plugboardPairs := [('A', 'B'), ('A', 'C')]);
    assert Shareable(c);
    DecodeEncode(c);
    ReusedLetterRefused(c);
  }

  /** Building a machine whose cables reuse 'A' fails on the plugboard. */
  lemma ReusedLetterRefused(c: MachineConfig)
    requires c == DefaultConfig().(plugboardPairs := [('A', 'B'), ('A', 'C')])
    ensures ConfigError(c) == Some(BadPlugboard(LetterReused('A')))
  {
    var pairs := c.plugboardPairs;
    assert PairsErrorFrom(pairs[1..], {'A', 'B'}) == Some(LetterReused('A'));
    assert PairsError(pairs) == Some(LetterReused('A'));
  }

  /** The default configuration. */
  function DefaultConfig(): MachineConfig {
    MachineConfig(RotorConfig(I, 1, "A"), RotorConfig(II, 1, "A"), RotorConfig(III, 1, "A"), UkwB, [], None)
  }

  /** The rotor entry of the default configuration: two-digit ring settings, rotors left to right. */
  lemma DefaultRotorsText()
    ensures RotorsText(DefaultConfig()) == "I-01-A.II-01-A.III-01-A"
  {
    assert Pad2(1) == "01";
  }

  /** Each entry written `name=value`, in order. */
  lemma EntriesTexts(rotors: string, reflector: string, greek: Option<string>, plugs: Option<string>)
    ensures FieldTexts(EntriesFor(rotors, reflector, greek, plugs))
      == ["r=" + rotors, "f=" + reflector]
         + (if greek.Some? then ["g=" + greek.value] else [])
         + (if plugs.Some? then ["p=" + plugs.value] else [])
  {
    var fs := EntriesFor(rotors, reflector, greek, plugs);
    var texts := ["r=" + rotors, "f=" + reflector]
         + (if greek.Some? then ["g=" + greek.value] else [])
         + (if plugs.Some? then ["p=" + plugs.value] else []);
    assert forall i :: 0 <= i < |fs| ==> FieldTexts(fs)[i] == texts[i];
  }

  lemma JoinCons(a: string, rest: seq<string>, sep: char)
    requires rest != []
    ensures Join([a] + rest, sep) == a + [sep] + Join(rest, sep)
  {
    assert ([a] + rest)[1..] == rest;
  }

  /** A last entry followed by the plug entry when there is one. */
  lemma JoinPlugs(x: string, plugs: Option<string>)
    ensures Join([x] + (if plugs.Some? then ["p=" + plugs.value] else []), '&')
      == x + (if plugs.Some? then "&p=" + plugs.value else "")
  {
    if plugs.Some? {
      JoinCons(x, ["p=" + plugs.value], '&');
    } else {
      assert [x] + [] == [x];
    }
  }

  /** The joined entries, written out. */
  lemma JoinEntries(rotors: string, reflector: string, greek: Option<string>, plugs: Option<string>)
    ensures Join(FieldTexts(EntriesFor(rotors, reflector, greek, plugs)), '&')
      == "r=" + rotors + "&f=" + reflector
         + (if greek.Some? then "&g=" + greek.value else "")
         + (if plugs.Some? then "&p=" + plugs.value else "")
  {
    EntriesTexts(rotors, reflector, greek, plugs);
    if greek.Some? {
      JoinWithGreek(rotors, reflector, greek.value, plugs);
    } else {
      JoinWithoutGreek(rotors, reflector, plugs);
    }
  }

  lemma JoinWithGreek(rotors: string, reflector: string, greek: string, plugs: Option<string>)
    ensures Join(["r=" + rotors, "f=" + reflector] + ["g=" + greek] + (if plugs.Some? then ["p=" + plugs.value] else []), '&')
      == "r=" + rotors + "&f=" + reflector + "&g=" + greek + (if plugs.Some? then "&p=" + plugs.value else "")
  {
    var r, f, g := "r=" + rotors, "f=" + reflector, "g=" + greek;
    var tail := if plugs.Some? then ["p=" + plugs.value] else [];
    var tailText := if plugs.Some? then "&p=" + plugs.value else "";
    JoinThree(r, f, g, plugs);
    assert [r, f] + [g] + tail == [r, f, g] + tail;
    assert r + ['&'] + (f + ['&'] + (g + tailText)) == "r=" + rotors + "&f=" + reflector + "&g=" + greek + tailText;
  }

  lemma JoinWithoutGreek(rotors: string, reflector: string, plugs: Option<string>)
    ensures Join(["r=" + rotors, "f=" + reflector] + [] + (if plugs.Some? then ["p=" + plugs.value] else []), '&')
      == "r=" + rotors + "&f=" + reflector + "" + (if plugs.Some? then "&p=" + plugs.value else "")
  {
    var r, f := "r=" + rotors, "f=" + reflector;
    var tail := if plugs.Some? then ["p=" + plugs.value] else [];
    JoinTwo(r, f, plugs);
    assert [r, f] + [] + tail == [r, f] + tail;
  }

  /** Two entries, then the plug entry when there is one. */
  lemma JoinTwo(r: string, f: string, plugs: Option<string>)
    ensures Join([r, f] + (if plugs.Some? then ["p=" + plugs.value] else []), '&')
      == r + ['&'] + (f + (if plugs.Some? then "&p=" + plugs.value else ""))
  {
    var tail := if plugs.Some? then ["p=" + plugs.value] else [];
    JoinPlugs(f, plugs);
    JoinCons(r, [f] + tail, '&');
    assert [r] + ([f] + tail) == [r, f] + tail;
  }

  /** Three entries, then the plug entry when there is one. */
  lemma JoinThree(r: string, f: string, g: string, plugs: Option<string>)
    ensures Join([r, f, g] + (if plugs.Some? then ["p=" + plugs.value] else []), '&')
      == r + ['&'] + (f + ['&'] + (g + (if plugs.Some? then "&p=" + plugs.value else "")))
  {
    var tail := if plugs.Some? then ["p=" + plugs.value] else [];
    JoinPlugs(g, plugs);
    JoinCons(f, [g] + tail, '&');
    assert [f] + ([g] + tail) == [f, g] + tail;
    JoinCons(r, [f, g] + tail, '&');
    assert [r] + ([f, g] + tail) == [r, f, g] + tail;
  }

  /**
   * What `encodeConfig` writes: `r=` and the three slots, `&f=` and the
   * reflector, then `&g=` only on an M4 and `&p=` only with cables.
   */
  lemma EncodeLayout(c: MachineConfig)
    ensures EncodeConfig(c)
      == "r=" + RotorsText(c) + "&f=" + ReflectorNameText(c.reflector)
         + (if c.greekRotor.Some? then "&g=" + GreekText(c.greekRotor.value) else "")
         + (if |c.plugboardPairs| > 0 then "&p=" + Join(PairTexts(c.plugboardPairs), '.') else "")
  {
    JoinEntries(RotorsText(c), ReflectorNameText(c.reflector), GreekField(c), PlugsField(c));
  }

  /** Ring settings are padded to two digits: `Beta-05-K`, `V-26-Z`; cables are written `AB.CD`. */
  lemma EncodeSlotsAndCables()
    ensures GreekText(GreekConfig(Beta, 5, "K")) == "Beta-05-K"
    ensures RotorText(RotorConfig(V, 26, "Z")) == "V-26-Z"
    ensures Join(PairTexts([('A', 'B'), ('C', 'D')]), '.') == "AB.CD"
  {
    assert Pad2(5) == "05";
    assert NatText(26) == NatText(2) + "6";
    assert PairTexts([('A', 'B'), ('C', 'D')]) == ["AB", "CD"];
  }
}
