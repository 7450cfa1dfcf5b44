/** The argument vector handed to the external `edentity` tool (built in
    `main` of galaxy_client.py): a fixed prefix of five flag/value pairs,
    up to three switches that are present only when their setting reads as
    true, and a fixed suffix of twelve flag/value pairs. */
module Command {
  import opened Results

  // ---------------------------------------------------------------------
  // Truth of a setting
  // ---------------------------------------------------------------------

  /** `str.lower` on one character, for the ASCII letters. */
  function LowerChar(c: char): char
  {
    if 'A' <= c <= 'Z' then (c as int - 'A' as int + 'a' as int) as char else c
  }

  /** `str.lower`, for the ASCII letters. */
  function Lower(s: string): (r: string)
    ensures |r| == |s|
  {
    if s == [] then [] else [LowerChar(s[0])] + Lower(s[1..])
  }

  /** `str(v).lower() in ("true", "1")`: the gate on every switch. */
  predicate Truthy(v: string)
  {
    Lower(v) == "true" || Lower(v) == "1"
  }

  /** `c` is the letter `lower` or its upper-case form. */
  predicate EitherCase(c: char, lower: char)
    requires 'a' <= lower <= 'z'
  {
    c == lower || c as int == lower as int - 'a' as int + 'A' as int
  }

  /** The spellings that read as true, written out: "1", or "true" with
      every letter in either case ("true", "True", "TRUE", "tRuE", ...). */
  predicate IsTrueSpelling(v: string)
  {
    || v == "1"
    || (|v| == 4 && EitherCase(v[0], 't') && EitherCase(v[1], 'r')
        && EitherCase(v[2], 'u') && EitherCase(v[3], 'e'))
  }

  /** Lower-casing maps a character to a given lower-case letter exactly
      when the character is that letter in either case. */
  lemma LowerCharIs(c: char, lower: char)
    requires 'a' <= lower <= 'z'
    ensures LowerChar(c) == lower <==> EitherCase(c, lower)
  {
  }

  /** Lower-casing works character by character. */
  lemma {:induction false} LowerAt(s: string, i: nat)
    requires i < |s|
    ensures Lower(s)[i] == LowerChar(s[i])
  {
    if i > 0 {
      LowerAt(s[1..], i - 1);
    }
  }

  /** The gate accepts exactly the spellings of true and "1". */
  lemma TruthyIff(v: string)
    ensures Truthy(v) <==> IsTrueSpelling(v)
  {
    var l := Lower(v);
    if |v| == 4 {
      LowerAt(v, 0);
      LowerAt(v, 1);
      LowerAt(v, 2);
      LowerAt(v, 3);
      LowerCharIs(v[0], 't');
      LowerCharIs(v[1], 'r');
      LowerCharIs(v[2], 'u');
      LowerCharIs(v[3], 'e');
      assert l == "true" <==> l[0] == 't' && l[1] == 'r' && l[2] == 'u' && l[3] == 'e';
    }
    if |v| == 1 {
      LowerAt(v, 0);
      assert l == "1" <==> l[0] == '1';
      assert LowerChar(v[0]) == '1' <==> v[0] == '1';
      assert v == "1" <==> v[0] == '1';
    }
  }

  /** A switch's setting: given on the command line as text, or left at the
      parser's default `False` (its text form is "False"). */
  datatype Setting = Given(text: string) | Default

  /** `str(value)` of a setting. */
  function Text(s: Setting): string
  {
    match s
    case Given(t) => t
    case Default => "False"
  }

  /** A switch left at its default is off. */
  lemma DefaultIsOff()
    ensures !Truthy(Text(Default))
  {
    TruthyIff(Text(Default));
  }

  // ---------------------------------------------------------------------
  // The configuration and the invocation
  // ---------------------------------------------------------------------

  /** The parsed options of the adapter that reach the tool. */
  datatype Config = Config(
    dataType: string,
    forwardPrimer: string,
    reversePrimer: string,
    createExtendedJsonReports: Setting,
    discardUntrimmed: string,
    anchored: Setting,
    nMax: string,
    averageQual: string,
    lengthRequired: string,
    fastqMaxdiffpct: string,
    fastqMinovlen: string,
    fastqMaxdiff: string,
    minlen: string,
    maxlen: string,
    maxee: string,
    fastaWidth: string,
    alpha: string,
    minsize: string)

  /** Everything the argument vector carries, with each switch decided. */
  datatype Invocation = Invocation(
    rawDataDir: string,
    dataType: string,
    workDir: string,
    forwardPrimer: string,
    reversePrimer: string,
    makeJsonReports: bool,
    discardUntrimmed: bool,
    anchoring: bool,
    nBaseLimit: string,
    averageQual: string,
    lengthRequired: string,
    maxdiffpct: string,
    minovlen: string,
    maxdiffs: string,
    minLength: string,
    maxLength: string,
    maxEE: string,
    fastaWidth: string,
    alpha: string,
    minsize: string)

  /** Decide the switches and pair each option with the tool's name for it. */
  function Resolve(cfg: Config, rawDataDir: string, workDir: string): (inv: Invocation)
    ensures cfg.anchored.Default? ==> !inv.anchoring
    ensures cfg.createExtendedJsonReports.Default? ==> !inv.makeJsonReports
  {
    DefaultIsOff();
    TruthyIff(Text(Default));
    Invocation(
      rawDataDir, cfg.dataType, workDir, cfg.forwardPrimer, cfg.reversePrimer,
      IsTrueSpelling(Text(cfg.createExtendedJsonReports)),
      IsTrueSpelling(cfg.discardUntrimmed),
      IsTrueSpelling(Text(cfg.anchored)),
      cfg.nMax, cfg.averageQual, cfg.lengthRequired, cfg.fastqMaxdiffpct,
      cfg.fastqMinovlen, cfg.fastqMaxdiff, cfg.minlen, cfg.maxlen, cfg.maxee,
      cfg.fastaWidth, cfg.alpha, cfg.minsize)
  }

  /** Each switch is decided by the gate `str(v).lower() in ("true", "1")`
      on its setting. */
  lemma ResolveGate(cfg: Config, rawDataDir: string, workDir: string)
    ensures var inv := Resolve(cfg, rawDataDir, workDir);
            && (inv.makeJsonReports <==> Truthy(Text(cfg.createExtendedJsonReports)))
            && (inv.discardUntrimmed <==> Truthy(cfg.discardUntrimmed))
            && (inv.anchoring <==> Truthy(Text(cfg.anchored)))
  {
    TruthyIff(Text(cfg.createExtendedJsonReports));
    TruthyIff(cfg.discardUntrimmed);
    TruthyIff(Text(cfg.anchored));
  }

  // ---------------------------------------------------------------------
  // The argument vector
  // ---------------------------------------------------------------------

  /** The spelling of the tool's command line: its name, the flags of the
      five leading pairs, the three switches, and the flags of the twelve
      trailing pairs. The vector's layout is stated for any spelling whose
      parts have these sizes and whose switches differ; `Edentity` is the
      one `main` uses. */
  datatype Spelling = Spelling(
    program: string,
    prefixFlags: seq<string>,
    jsonSwitch: string,
    discardSwitch: string,
    anchoringSwitch: string,
    suffixFlags: seq<string>)

  predicate ValidSpelling(sp: Spelling)
  {
    && |sp.prefixFlags| == 5
    && |sp.suffixFlags| == 12
    && sp.jsonSwitch != sp.discardSwitch
    && sp.jsonSwitch != sp.anchoringSwitch
    && sp.discardSwitch != sp.anchoringSwitch
  }

  const Edentity: Spelling := Spelling(
    "edentity",
    ["--raw_data_dir", "--dataType", "--work_dir", "--forward_primer", "--reverse_primer"],
    "--make_json_reports",
    "--discard_untrimmed",
    "--anchoring",
    ["--n_base_limit", "--average_qual", "--length_required", "--maxdiffpct",
     "--minovlen", "--maxdiffs", "--min_length", "--max_length", "--maxEE",
     "--fasta_width", "--alpha", "--minsize"])

  /** The spelling `main` uses has the expected shape: in particular its
      three switches are distinct. */
  lemma EdentityValid()
    ensures ValidSpelling(Edentity)
  {
    assert Edentity.jsonSwitch[2] == 'm';
    assert Edentity.discardSwitch[2] == 'd';
    assert Edentity.anchoringSwitch[2] == 'a';
  }

  /** The values of the five leading pairs, in flag order. */
  function PrefixValues(inv: Invocation): seq<string>
  {
    [inv.rawDataDir, inv.dataType, inv.workDir, inv.forwardPrimer, inv.reversePrimer]
  }

  /** The values of the twelve trailing pairs, in flag order. */
  function SuffixValues(inv: Invocation): seq<string>
  {
    [inv.nBaseLimit, inv.averageQual, inv.lengthRequired, inv.maxdiffpct,
     inv.minovlen, inv.maxdiffs, inv.minLength, inv.maxLength, inv.maxEE,
     inv.fastaWidth, inv.alpha, inv.minsize]
  }

  // ---------------------------------------------------------------------
  // Flag/value pairs
  // ---------------------------------------------------------------------

  /** Each flag followed by its value: f0, v0, f1, v1, ... */
  function Pairs(flags: seq<string>, values: seq<string>): (r: seq<string>)
    requires |flags| == |values|
    ensures |r| == 2 * |flags|
    decreases |flags|
  {
    if flags == [] then [] else [flags[0], values[0]] + Pairs(flags[1..], values[1..])
  }

  /** The tokens at even positions. */
  function FlagsOf(s: seq<string>): (r: seq<string>)
  {
    seq(|s| / 2, i requires 0 <= i < |s| / 2 => s[2 * i])
  }

  /** The tokens at odd positions. */
  function ValuesOf(s: seq<string>): (r: seq<string>)
  {
    seq(|s| / 2, i requires 0 <= i < |s| / 2 => s[2 * i + 1])
  }

  /** Flag i sits at position 2i and its value right after it. */
  lemma {:induction false} PairsIndex(flags: seq<string>, values: seq<string>, i: nat)
    requires |flags| == |values|
    requires i < |flags|
    ensures Pairs(flags, values)[2 * i] == flags[i]
    ensures Pairs(flags, values)[2 * i + 1] == values[i]
  {
    if i > 0 {
      PairsIndex(flags[1..], values[1..], i - 1);
    }
  }

  /** Pairing then splitting gives back the flags and the values. */
  lemma PairsSplit(flags: seq<string>, values: seq<string>)
    requires |flags| == |values|
    ensures FlagsOf(Pairs(flags, values)) == flags
    ensures ValuesOf(Pairs(flags, values)) == values
  {
    forall i | 0 <= i < |flags|
      ensures FlagsOf(Pairs(flags, values))[i] == flags[i]
      ensures ValuesOf(Pairs(flags, values))[i] == values[i]
    {
      PairsIndex(flags, values, i);
    }
  }

  /** Splitting an even-length vector then pairing gives it back. */
  lemma SplitPairs(s: seq<string>)
    requires |s| % 2 == 0
    ensures Pairs(FlagsOf(s), ValuesOf(s)) == s
  {
    var r := Pairs(FlagsOf(s), ValuesOf(s));
    forall j | 0 <= j < |s|
      ensures r[j] == s[j]
    {
      PairsIndex(FlagsOf(s), ValuesOf(s), j / 2);
    }
  }

  // ---------------------------------------------------------------------
  // The argument vector
  // ---------------------------------------------------------------------

  /** Length of the part before the switches: the program and five pairs. */
  const PrefixLength: nat := 11
  /** Length of the part after the switches: twelve pairs. */
  const SuffixLength: nat := 24

  function Prefix(sp: Spelling, inv: Invocation): (r: seq<string>)
    requires ValidSpelling(sp)
    ensures |r| == PrefixLength
  {
    [sp.program] + Pairs(sp.prefixFlags, PrefixValues(inv))
  }

  function Switches(sp: Spelling, inv: Invocation): seq<string>
  {
    (if inv.makeJsonReports then [sp.jsonSwitch] else [])
    + (if inv.discardUntrimmed then [sp.discardSwitch] else [])
    + (if inv.anchoring then [sp.anchoringSwitch] else [])
  }

  function Suffix(sp: Spelling, inv: Invocation): (r: seq<string>)
    requires ValidSpelling(sp)
    ensures |r| == SuffixLength
  {
    Pairs(sp.suffixFlags, SuffixValues(inv))
  }

  /** How many switches are on. */
  function SwitchCount(inv: Invocation): nat
  {
    (if inv.makeJsonReports then 1 else 0)
    + (if inv.discardUntrimmed then 1 else 0)
    + (if inv.anchoring then 1 else 0)
  }

  /** How often `x` occurs in `s`. */
  function Occurrences(s: seq<string>, x: string): nat
  {
    multiset(s)[x]
  }

  /** The argument vector for an invocation. */
  function Encode(sp: Spelling, inv: Invocation): (cmd: seq<string>)
    requires ValidSpelling(sp)
    ensures |cmd| == PrefixLength + SwitchCount(inv) + SuffixLength
    ensures cmd[..PrefixLength] == Prefix(sp, inv)
    ensures cmd[PrefixLength..|cmd| - SuffixLength] == Switches(sp, inv)
    ensures cmd[|cmd| - SuffixLength..] == Suffix(sp, inv)
  {
    Prefix(sp, inv) + Switches(sp, inv) + Suffix(sp, inv)
  }

  /** One of the three switches. */
  predicate IsSwitch(sp: Spelling, t: string)
  {
    t == sp.jsonSwitch || t == sp.discardSwitch || t == sp.anchoringSwitch
  }

  /** Position of a switch in the fixed order. */
  function SwitchRank(sp: Spelling, t: string): nat
  {
    if t == sp.jsonSwitch then 0
    else if t == sp.discardSwitch then 1
    else 2
  }

  /** How often a token occurs among the switches. */
  lemma SwitchOccurrences(sp: Spelling, inv: Invocation, x: string)
    ensures Occurrences(Switches(sp, inv), x) ==
              (if inv.makeJsonReports && x == sp.jsonSwitch then 1 else 0)
              + (if inv.discardUntrimmed && x == sp.discardSwitch then 1 else 0)
              + (if inv.anchoring && x == sp.anchoringSwitch then 1 else 0)
  {
    var a := if inv.makeJsonReports then [sp.jsonSwitch] else [];
    var b := if inv.discardUntrimmed then [sp.discardSwitch] else [];
    var c := if inv.anchoring then [sp.anchoringSwitch] else [];
    assert multiset(a + b + c) == multiset(a) + multiset(b) + multiset(c);
  }

  /** The switch part: each switch at most once, present exactly when on. */
  lemma SwitchCounts(sp: Spelling, inv: Invocation)
    requires ValidSpelling(sp)
    ensures |Switches(sp, inv)| == SwitchCount(inv) <= 3
    ensures Occurrences(Switches(sp, inv), sp.jsonSwitch) == if inv.makeJsonReports then 1 else 0
    ensures Occurrences(Switches(sp, inv), sp.discardSwitch) == if inv.discardUntrimmed then 1 else 0
    ensures Occurrences(Switches(sp, inv), sp.anchoringSwitch) == if inv.anchoring then 1 else 0
  {
    SwitchOccurrences(sp, inv, sp.jsonSwitch);
    SwitchOccurrences(sp, inv, sp.discardSwitch);
    SwitchOccurrences(sp, inv, sp.anchoringSwitch);
  }

  /** The switch part holds nothing but switches, in the order json
      reports, discard untrimmed, anchoring. */
  lemma SwitchOrder(sp: Spelling, inv: Invocation)
    requires ValidSpelling(sp)
    ensures forall i :: 0 <= i < |Switches(sp, inv)| ==> IsSwitch(sp, Switches(sp, inv)[i])
    ensures forall i, j :: 0 <= i < j < |Switches(sp, inv)| ==>
              SwitchRank(sp, Switches(sp, inv)[i]) < SwitchRank(sp, Switches(sp, inv)[j])
  {
    var a := if inv.makeJsonReports then [sp.jsonSwitch] else [];
    var b := if inv.discardUntrimmed then [sp.discardSwitch] else [];
    var c := if inv.anchoring then [sp.anchoringSwitch] else [];
    var sw := Switches(sp, inv);
    assert sw == a + b + c;
    forall i, j | 0 <= i < j < |sw|
      ensures SwitchRank(sp, sw[i]) < SwitchRank(sp, sw[j])
    {
      assert SwitchRank(sp, sw[i]) == if i < |a| then 0 else if i < |a| + |b| then 1 else 2;
      assert SwitchRank(sp, sw[j]) == if j < |a| then 0 else if j < |a| + |b| then 1 else 2;
    }
  }

  // ---------------------------------------------------------------------
  // Reading the vector back
  // ---------------------------------------------------------------------

  /** Read the switch part back: it must be one of the eight ordered
      choices. */
  function DecodeSwitches(sp: Spelling, sw: seq<string>): Option<(bool, bool, bool)>
  {
    var json := |sw| > 0 && sw[0] == sp.jsonSwitch;
    var rest := if json then sw[1..] else sw;
    var discard := |rest| > 0 && rest[0] == sp.discardSwitch;
    var rest' := if discard then rest[1..] else rest;
    var anchoring := |rest'| > 0 && rest'[0] == sp.anchoringSwitch;
    var rest'' := if anchoring then rest'[1..] else rest';
    if rest'' == [] then Some((json, discard, anchoring)) else None
  }

  /** The switch part is read back as the switches that are on. */
  lemma DecodeSwitchesOfSwitches(sp: Spelling, inv: Invocation)
    requires ValidSpelling(sp)
    ensures DecodeSwitches(sp, Switches(sp, inv)) ==
              Some((inv.makeJsonReports, inv.discardUntrimmed, inv.anchoring))
  {
  }

  /** Whatever switch part is read back is the rendering of the switches
      read. */
  lemma SwitchesOfDecodeSwitches(sp: Spelling, sw: seq<string>, inv: Invocation)
    requires DecodeSwitches(sp, sw) == Some((inv.makeJsonReports, inv.discardUntrimmed, inv.anchoring))
    ensures Switches(sp, inv) == sw
  {
  }

  /** The invocation with the given leading values, switches and trailing
      values. */
  function InvocationOf(pv: seq<string>, json: bool, discard: bool, anchoring: bool, sv: seq<string>): (inv: Invocation)
    requires |pv| == 5 && |sv| == 12
    ensures PrefixValues(inv) == pv && SuffixValues(inv) == sv
    ensures inv.makeJsonReports == json && inv.discardUntrimmed == discard && inv.anchoring == anchoring
  {
    Invocation(
      pv[0], pv[1], pv[2], pv[3], pv[4], json, discard, anchoring,
      sv[0], sv[1], sv[2], sv[3], sv[4], sv[5], sv[6], sv[7], sv[8], sv[9], sv[10], sv[11])
  }

  /** Read an argument vector back into the invocation it encodes, or
      `None` when it is not laid out as `Encode` lays vectors out. */
  function Decode(sp: Spelling, cmd: seq<string>): Option<Invocation>
  {
    if |cmd| < PrefixLength + SuffixLength then None
    else
      var p := cmd[1..PrefixLength];
      var sx := cmd[|cmd| - SuffixLength..];
      match DecodeSwitches(sp, cmd[PrefixLength..|cmd| - SuffixLength])
      case None => None
      case Some((json, discard, anchoring)) =>
        if cmd[0] == sp.program && FlagsOf(p) == sp.prefixFlags && FlagsOf(sx) == sp.suffixFlags
        then Some(InvocationOf(ValuesOf(p), json, discard, anchoring, ValuesOf(sx)))
        else None
  }

  /** Reading the values back from their lists gives the invocation. */
  lemma InvocationOfValues(inv: Invocation)
    ensures InvocationOf(PrefixValues(inv), inv.makeJsonReports, inv.discardUntrimmed,
                         inv.anchoring, SuffixValues(inv)) == inv
  {
  }

  /** The pairs after the program name in an encoded vector. */
  lemma EncodedPrefixPairs(sp: Spelling, inv: Invocation)
    requires ValidSpelling(sp)
    ensures Encode(sp, inv)[0] == sp.program
    ensures Encode(sp, inv)[1..PrefixLength] == Pairs(sp.prefixFlags, PrefixValues(inv))
  {
    var cmd := Encode(sp, inv);
    var p := Prefix(sp, inv);
    assert cmd[..PrefixLength] == p;
    assert cmd[1..PrefixLength] == p[1..];
  }

  /** Every invocation is read back from its vector: the vector is an
      unambiguous rendering, whatever text the values hold. */
  lemma DecodeEncode(sp: Spelling, inv: Invocation)
    requires ValidSpelling(sp)
    ensures Decode(sp, Encode(sp, inv)) == Some(inv)
  {
    DecodeSwitchesOfSwitches(sp, inv);
    EncodedPrefixPairs(sp, inv);
    PairsSplit(sp.prefixFlags, PrefixValues(inv));
    PairsSplit(sp.suffixFlags, SuffixValues(inv));
    InvocationOfValues(inv);
  }

  /** A decoded vector's leading part is the decoded invocation's prefix. */
  lemma DecodedPrefix(sp: Spelling, cmd: seq<string>)
    requires ValidSpelling(sp)
    requires Decode(sp, cmd).Some?
    ensures Prefix(sp, Decode(sp, cmd).value) == cmd[..PrefixLength]
  {
    var p := cmd[1..PrefixLength];
    SplitPairs(p);
    assert cmd[..PrefixLength] == [cmd[0]] + p;
  }

  /** A decoded vector's trailing part is the decoded invocation's suffix. */
  lemma DecodedSuffix(sp: Spelling, cmd: seq<string>)
    requires ValidSpelling(sp)
    requires Decode(sp, cmd).Some?
    ensures Suffix(sp, Decode(sp, cmd).value) == cmd[|cmd| - SuffixLength..]
  {
    SplitPairs(cmd[|cmd| - SuffixLength..]);
  }

  /** A decoded vector's middle part is the decoded invocation's switches. */
  lemma DecodedSwitches(sp: Spelling, cmd: seq<string>)
    requires Decode(sp, cmd).Some?
    ensures |cmd| >= PrefixLength + SuffixLength
    ensures Switches(sp, Decode(sp, cmd).value) == cmd[PrefixLength..|cmd| - SuffixLength]
  {
    var inv := Decode(sp, cmd).value;
    SwitchesOfDecodeSwitches(sp, cmd[PrefixLength..|cmd| - SuffixLength], inv);
  }

  /** A vector whose three parts are an invocation's prefix, switches and
      suffix is that invocation's vector. */
  lemma EncodeFromParts(sp: Spelling, inv: Invocation, cmd: seq<string>)
    requires ValidSpelling(sp)
    requires |cmd| >= PrefixLength + SuffixLength
    requires cmd[..PrefixLength] == Prefix(sp, inv)
    requires cmd[PrefixLength..|cmd| - SuffixLength] == Switches(sp, inv)
    requires cmd[|cmd| - SuffixLength..] == Suffix(sp, inv)
    ensures Encode(sp, inv) == cmd
  {
    var p := cmd[..PrefixLength];
    var sw := cmd[PrefixLength..|cmd| - SuffixLength];
    var sx := cmd[|cmd| - SuffixLength..];
    assert cmd == p + sw + sx;
  }

  /** Whatever reads back as an invocation is exactly that invocation's
      vector. */
  lemma EncodeDecode(sp: Spelling, cmd: seq<string>)
    requires ValidSpelling(sp)
    requires Decode(sp, cmd).Some?
    ensures Encode(sp, Decode(sp, cmd).value) == cmd
  {
    DecodedSwitches(sp, cmd);
    DecodedPrefix(sp, cmd);
    DecodedSuffix(sp, cmd);
    EncodeFromParts(sp, Decode(sp, cmd).value, cmd);
  }

  // ---------------------------------------------------------------------
  // The command of `main`
  // ---------------------------------------------------------------------

  function BuildCommand(cfg: Config, rawDataDir: string, workDir: string): (cmd: seq<string>)
  {
    EdentityValid();
    Encode(Edentity, Resolve(cfg, rawDataDir, workDir))
  }

  /** The command reads back as the configuration with its switches
      decided: every value is recoverable and nothing else is in it. */
  lemma CommandReadsBack(cfg: Config, rawDataDir: string, workDir: string)
    ensures Decode(Edentity, BuildCommand(cfg, rawDataDir, workDir)) == Some(Resolve(cfg, rawDataDir, workDir))
  {
    EdentityValid();
    DecodeEncode(Edentity, Resolve(cfg, rawDataDir, workDir));
  }

  /** The command starts with the program name and then the five leading
      flags, each followed by its value. */
  lemma CommandPrefix(cfg: Config, rawDataDir: string, workDir: string)
    ensures var cmd := BuildCommand(cfg, rawDataDir, workDir);
            && cmd[0] == Edentity.program
            && cmd[1..11] == Pairs(Edentity.prefixFlags,
                 [rawDataDir, cfg.dataType, workDir, cfg.forwardPrimer, cfg.reversePrimer])
  {
    EdentityValid();
    EncodedPrefixPairs(Edentity, Resolve(cfg, rawDataDir, workDir));
  }

  /** In an encoded vector, leading flag i sits at position 2i + 1 and its
      value right after it. */
  lemma EncodedPrefixAt(sp: Spelling, inv: Invocation, i: nat)
    requires ValidSpelling(sp)
    requires i < 5
    ensures Encode(sp, inv)[2 * i + 1] == sp.prefixFlags[i]
    ensures Encode(sp, inv)[2 * i + 2] == PrefixValues(inv)[i]
  {
    EncodedPrefixPairs(sp, inv);
    PairsIndex(sp.prefixFlags, PrefixValues(inv), i);
    var cmd := Encode(sp, inv);
    assert cmd[2 * i + 1] == cmd[1..PrefixLength][2 * i];
  }

  /** In an encoded vector the input directory is the value of the first
      pair and the work directory that of the third. */
  lemma EncodedDirectories(sp: Spelling, inv: Invocation)
    requires ValidSpelling(sp)
    ensures var cmd := Encode(sp, inv);
            && cmd[1] == sp.prefixFlags[0] && cmd[2] == inv.rawDataDir
            && cmd[5] == sp.prefixFlags[2] && cmd[6] == inv.workDir
  {
    EncodedPrefixAt(sp, inv, 0);
    EncodedPrefixAt(sp, inv, 2);
  }

  /** The input directory is the value of `--raw_data_dir` (position 2) and
      the work directory that of `--work_dir` (position 6). */
  lemma CommandDirectories(cfg: Config, rawDataDir: string, workDir: string)
    ensures var cmd := BuildCommand(cfg, rawDataDir, workDir);
            && cmd[1] == Edentity.prefixFlags[0] == "--raw_data_dir" && cmd[2] == rawDataDir
            && cmd[5] == Edentity.prefixFlags[2] == "--work_dir" && cmd[6] == workDir
  {
    EdentityValid();
    EncodedDirectories(Edentity, Resolve(cfg, rawDataDir, workDir));
  }

  /** The switches of an encoded vector sit between its prefix and its
      suffix: k of them, each once exactly when on, nothing else, in the
      fixed order. */
  lemma EncodedSwitches(sp: Spelling, inv: Invocation)
    requires ValidSpelling(sp)
    ensures var cmd := Encode(sp, inv);
            var k := |cmd| - 35;
            var sw := cmd[11..11 + k];
            && 0 <= k <= 3
            && (Occurrences(sw, sp.jsonSwitch) == 1) == inv.makeJsonReports
            && (Occurrences(sw, sp.discardSwitch) == 1) == inv.discardUntrimmed
            && (Occurrences(sw, sp.anchoringSwitch) == 1) == inv.anchoring
            && (forall i :: 0 <= i < k ==> IsSwitch(sp, sw[i]))
            && (forall i, j :: 0 <= i < j < k ==> SwitchRank(sp, sw[i]) < SwitchRank(sp, sw[j]))
  {
    var cmd := Encode(sp, inv);
    assert cmd[11..11 + (|cmd| - 35)] == Switches(sp, inv);
    SwitchCounts(sp, inv);
    SwitchOrder(sp, inv);
  }

  /** Between the reverse primer and `--n_base_limit` come k switches,
      0 <= k <= 3, so the command has 35 + k tokens; each switch occurs
      there once exactly when its setting is a spelling of true, nothing
      else occurs there, and they keep the fixed order. */
  lemma CommandSwitches(cfg: Config, rawDataDir: string, workDir: string)
    ensures var cmd := BuildCommand(cfg, rawDataDir, workDir);
            var k := |cmd| - 35;
            var sw := cmd[11..11 + k];
            && 0 <= k <= 3
            && (Occurrences(sw, Edentity.jsonSwitch) == 1) == IsTrueSpelling(Text(cfg.createExtendedJsonReports))
            && (Occurrences(sw, Edentity.discardSwitch) == 1) == IsTrueSpelling(cfg.discardUntrimmed)
            && (Occurrences(sw, Edentity.anchoringSwitch) == 1) == IsTrueSpelling(Text(cfg.anchored))
            && (forall i :: 0 <= i < k ==> IsSwitch(Edentity, sw[i]))
            && (forall i, j :: 0 <= i < j < k ==> SwitchRank(Edentity, sw[i]) < SwitchRank(Edentity, sw[j]))
  {
    EdentityValid();
    EncodedSwitches(Edentity, Resolve(cfg, rawDataDir, workDir));
  }

  /** The command ends with the twelve trailing flags, each followed by its
      value. */
  lemma CommandSuffix(cfg: Config, rawDataDir: string, workDir: string)
    ensures var cmd := BuildCommand(cfg, rawDataDir, workDir);
            && |cmd| >= 35
            && cmd[|cmd| - 24..] == Pairs(Edentity.suffixFlags,
                 [cfg.nMax, cfg.averageQual, cfg.lengthRequired, cfg.fastqMaxdiffpct,
                  cfg.fastqMinovlen, cfg.fastqMaxdiff, cfg.minlen, cfg.maxlen, cfg.maxee,
                  cfg.fastaWidth, cfg.alpha, cfg.minsize])
  {
    EdentityValid();
  }
}
