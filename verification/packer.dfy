/**
 * The texture packer's driver: its options and the text format of the
 * options file, the border and extrusion padding around each image, the
 * packing loop that fills one texture per pass with one of the three bin
 * packers, and the size of each texture's image.
 */
module Packers {
  import Vectors
  import opened Rects
  import opened Options
  import Strings
  import TextureAtlases
  import Guillotines
  import MaxRects
  import Skylines

  // ---------------------------------------------------------------------
  // Options
  // ---------------------------------------------------------------------

  datatype PackingAlgorithm = MaxRectsPacking | SkylinePacking | GuillotinePacking
  datatype RectangleOrdering = LargestFirst | SmallestFirst
  datatype SizeConstraint = Fixed | Minimum | PowerOf2

  /** `PackableImage`: an image file to pack, with the border and extrusion
      its file name may ask for. */
  datatype PackableImage = PackableImage(index: nat, name: string, path: string, size: Vectors.Vec2, border: Option<nat>, extrusion: Option<nat>)

  /** `packerOptions`. */
  datatype PackerOptions = PackerOptions(
    packingAlgorithm: PackingAlgorithm,
    guillotineFitPolicy: Guillotines.FitPolicy,
    guillotineSplitPolicy: Guillotines.SplitPolicy,
    maxRectsFitPolicy: MaxRects.FitPolicy,
    rectangleOrdering: RectangleOrdering,
    wasteImprovement: bool,
    maxSize: Vectors.Vec2,
    sizeConstraint: SizeConstraint,
    border: nat,
    extrusion: nat,
    outputName: string)

  /** The options a default-constructed `packerOptions` holds. */
  const Defaults := PackerOptions(MaxRectsPacking, Guillotines.BSSF, Guillotines.MINAS, MaxRects.BSSF, LargestFirst,
                                  true, Vectors.Vec2(4096.0, 4096.0), Minimum, 1, 2, "texture")

  /** The options together with the output directory that the option
      `output-dir` hands to the delegate. */
  datatype Settings = Settings(options: PackerOptions, outputDir: string)

  /** What the option parser can produce: a square maximum size of a whole
      number of pixels in [32, 8192], and a border and extrusion of at most 32. */
  predicate Valid(o: PackerOptions)
  {
    o.maxSize.x == o.maxSize.y && o.maxSize.x.Floor as real == o.maxSize.x &&
    32.0 <= o.maxSize.x <= 8192.0 && o.border <= 32 && o.extrusion <= 32
  }

  // ---------------------------------------------------------------------
  // Option values
  // ---------------------------------------------------------------------

  function AlgorithmNamed(value: string): Option<PackingAlgorithm>
  {
    if value == "max-rects" then Some(MaxRectsPacking)
    else if value == "skyline" then Some(SkylinePacking)
    else if value == "guillotine" then Some(GuillotinePacking)
    else None
  }

  function AlgorithmName(a: PackingAlgorithm): (s: string)
    ensures AlgorithmNamed(s) == Some(a) && Plain(s)
  {
    match a
    case MaxRectsPacking => "max-rects"
    case SkylinePacking => "skyline"
    case GuillotinePacking => "guillotine"
  }

  function GuillotineFitNamed(value: string): Option<Guillotines.FitPolicy>
  {
    if value == "baf" then Some(Guillotines.BAF)
    else if value == "bssf" then Some(Guillotines.BSSF)
    else if value == "blsf" then Some(Guillotines.BLSF)
    else None
  }

  function GuillotineFitName(f: Guillotines.FitPolicy): (s: string)
    ensures GuillotineFitNamed(s) == Some(f) && Plain(s)
  {
    match f
    case BAF => "baf"
    case BSSF => "bssf"
    case BLSF => "blsf"
  }

  function SplitNamed(value: string): Option<Guillotines.SplitPolicy>
  {
    if value == "sas" then Some(Guillotines.SAS)
    else if value == "las" then Some(Guillotines.LAS)
    else if value == "slas" then Some(Guillotines.SLAS)
    else if value == "llas" then Some(Guillotines.LLAS)
    else if value == "maxas" then Some(Guillotines.MAXAS)
    else if value == "minas" then Some(Guillotines.MINAS)
    else None
  }

  function SplitName(p: Guillotines.SplitPolicy): (s: string)
    ensures SplitNamed(s) == Some(p) && Plain(s)
  {
    match p
    case SAS => "sas"
    case LAS => "las"
    case SLAS => "slas"
    case LLAS => "llas"
    case MAXAS => "maxas"
    case MINAS => "minas"
  }

  function MaxRectsFitNamed(value: string): Option<MaxRects.FitPolicy>
  {
    if value == "bl" then Some(MaxRects.BL)
    else if value == "baf" then Some(MaxRects.BAF)
    else if value == "bssf" then Some(MaxRects.BSSF)
    else if value == "blsf" then Some(MaxRects.BLSF)
    else None
  }

  function MaxRectsFitName(f: MaxRects.FitPolicy): (s: string)
    ensures MaxRectsFitNamed(s) == Some(f) && Plain(s)
  {
    match f
    case BL => "bl"
    case BAF => "baf"
    case BSSF => "bssf"
    case BLSF => "blsf"
  }

  function OrderingNamed(value: string): Option<RectangleOrdering>
  {
    if value == "largest-first" then Some(LargestFirst)
    else if value == "smallest-first" then Some(SmallestFirst)
    else None
  }

  function OrderingName(r: RectangleOrdering): (s: string)
    ensures OrderingNamed(s) == Some(r) && Plain(s)
  {
    match r
    case LargestFirst => "largest-first"
    case SmallestFirst => "smallest-first"
  }

  /** `true` and `1`, `false` and `0`. */
  function BooleanNamed(value: string): Option<bool>
  {
    if value == "true" || value == "1" then Some(true)
    else if value == "false" || value == "0" then Some(false)
    else None
  }

  function BooleanName(b: bool): (s: string)
    ensures BooleanNamed(s) == Some(b) && Plain(s)
  {
    if b then "true" else "false"
  }

  function ConstraintNamed(value: string): Option<SizeConstraint>
  {
    if value == "fixed" then Some(Fixed)
    else if value == "minimum" then Some(Minimum)
    else if value == "powerof2" then Some(PowerOf2)
    else None
  }

  function ConstraintName(c: SizeConstraint): (s: string)
    ensures ConstraintNamed(s) == Some(c) && Plain(s)
  {
    match c
    case Fixed => "fixed"
    case Minimum => "minimum"
    case PowerOf2 => "powerof2"
  }

  /** Only the name of a value reads as that value (for the booleans, `1`
      and `0` are accepted too); each `...Name` function states the other
      direction. */
  lemma AlgorithmNamedOnly(v: string)
    ensures AlgorithmNamed(v).Some? ==> v == AlgorithmName(AlgorithmNamed(v).value)
  {
  }

  lemma GuillotineFitNamedOnly(v: string)
    ensures GuillotineFitNamed(v).Some? ==> v == GuillotineFitName(GuillotineFitNamed(v).value)
  {
  }

  lemma SplitNamedOnly(v: string)
    ensures SplitNamed(v).Some? ==> v == SplitName(SplitNamed(v).value)
  {
  }

  lemma MaxRectsFitNamedOnly(v: string)
    ensures MaxRectsFitNamed(v).Some? ==> v == MaxRectsFitName(MaxRectsFitNamed(v).value)
  {
  }

  lemma OrderingNamedOnly(v: string)
    ensures OrderingNamed(v).Some? ==> v == OrderingName(OrderingNamed(v).value)
  {
  }

  lemma ConstraintNamedOnly(v: string)
    ensures ConstraintNamed(v).Some? ==> v == ConstraintName(ConstraintNamed(v).value)
  {
  }

  /** A switch also reads "1" and "0". */
  lemma BooleanNamedOnly(v: string)
    ensures BooleanNamed(v).Some? ==> v == BooleanName(BooleanNamed(v).value) || v == (if BooleanNamed(v).value then "1" else "0")
  {
  }

  // ---------------------------------------------------------------------
  // Setting one option
  // ---------------------------------------------------------------------

  /** The options `setOption` knows, one per setting. */
  datatype OptionKey = AlgorithmKey | GuillotineFitKey | GuillotineSplitKey | MaxRectsFitKey | OrderingKey | WasteKey
                     | MaxSizeKey | ConstraintKey | BorderKey | ExtrusionKey | OutputDirKey | OutputNameKey

  /** The option names, each as an options file spells it. */
  type OptionName = s: string | Plain(s) witness "a"

  const AlgorithmOption: OptionName := "packing-algorithm"
  const GuillotineFitOption: OptionName := "guillotine-fit"
  const GuillotineSplitOption: OptionName := "guillotine-split"
  const MaxRectsFitOption: OptionName := "maxrects-fit"
  const OrderingOption: OptionName := "rect-ordering"
  const WasteOption: OptionName := "waste-improvement"
  const MaxSizeOption: OptionName := "max-size"
  const ConstraintOption: OptionName := "size-constraint"
  const BorderOption: OptionName := "border"
  const ExtrusionOption: OptionName := "extrusion"
  const OutputDirOption: OptionName := "output-dir"
  const OutputNameOption: OptionName := "output-name"

  function KeyNamed(name: string): Option<OptionKey>
  {
    if name == AlgorithmOption then Some(AlgorithmKey)
    else if name == GuillotineFitOption then Some(GuillotineFitKey)
    else if name == GuillotineSplitOption then Some(GuillotineSplitKey)
    else if name == MaxRectsFitOption then Some(MaxRectsFitKey)
    else if name == OrderingOption then Some(OrderingKey)
    else if name == WasteOption then Some(WasteKey)
    else if name == MaxSizeOption then Some(MaxSizeKey)
    else if name == ConstraintOption then Some(ConstraintKey)
    else if name == BorderOption then Some(BorderKey)
    else if name == ExtrusionOption then Some(ExtrusionKey)
    else if name == OutputDirOption then Some(OutputDirKey)
    else if name == OutputNameOption then Some(OutputNameKey)
    else None
  }

  function KeyName(k: OptionKey): (s: OptionName)
    ensures KeyNamed(s) == Some(k)
  {
    match k
    case AlgorithmKey => AlgorithmOption
    case GuillotineFitKey => GuillotineFitOption
    case GuillotineSplitKey => GuillotineSplitOption
    case MaxRectsFitKey => MaxRectsFitOption
    case OrderingKey => OrderingOption
    case WasteKey => WasteOption
    case MaxSizeKey => MaxSizeOption
    case ConstraintKey => ConstraintOption
    case BorderKey => BorderOption
    case ExtrusionKey => ExtrusionOption
    case OutputDirKey => OutputDirOption
    case OutputNameKey => OutputNameOption
  }

  /** Only the name of an option selects it; `KeyName` states the other direction. */
  lemma KeyNamedOnly(name: string, k: OptionKey)
    requires KeyNamed(name) == Some(k)
    ensures name == KeyName(k)
  {
    match k
    case AlgorithmKey => assert name == AlgorithmOption;
    case GuillotineFitKey => assert name == GuillotineFitOption;
    case GuillotineSplitKey => assert name == GuillotineSplitOption;
    case MaxRectsFitKey => assert name == MaxRectsFitOption;
    case OrderingKey => assert name == OrderingOption;
    case WasteKey => assert name == WasteOption;
    case MaxSizeKey => assert name == MaxSizeOption;
    case ConstraintKey => assert name == ConstraintOption;
    case BorderKey => assert name == BorderOption;
    case ExtrusionKey => assert name == ExtrusionOption;
    case OutputDirKey => assert name == OutputDirOption;
    case OutputNameKey => assert name == OutputNameOption;
  }

  /** A name or value as `setOption` compares it: lower-cased, then trimmed. */
  function Normalize(s: string): string
  {
    TextureAtlases.Trim(Strings.Lower(s))
  }

  /** A whole number within [`low`, `high`], as `std::stoi` reads `value`. */
  function NumberIn(value: string, low: int, high: int): Option<int>
  {
    var n := Strings.Stoi(value);
    if n.Some? && low <= n.value <= high then n else None
  }

  /** The option `k` set from the normalised, non-empty `value`; a value the
      option does not recognise, or a number out of its range, changes nothing. */
  function SetKey(st: Settings, k: OptionKey, value: string): Settings
  {
    var o := st.options;
    match k
    case AlgorithmKey =>
      var v := AlgorithmNamed(value); if v.Some? then st.(options := o.(packingAlgorithm := v.value)) else st
    case GuillotineFitKey =>
      var v := GuillotineFitNamed(value); if v.Some? then st.(options := o.(guillotineFitPolicy := v.value)) else st
    case GuillotineSplitKey =>
      var v := SplitNamed(value); if v.Some? then st.(options := o.(guillotineSplitPolicy := v.value)) else st
    case MaxRectsFitKey =>
      var v := MaxRectsFitNamed(value); if v.Some? then st.(options := o.(maxRectsFitPolicy := v.value)) else st
    case OrderingKey =>
      var v := OrderingNamed(value); if v.Some? then st.(options := o.(rectangleOrdering := v.value)) else st
    case WasteKey =>
      var v := BooleanNamed(value); if v.Some? then st.(options := o.(wasteImprovement := v.value)) else st
    case MaxSizeKey =>
      var wh := NumberIn(value, 32, 8192);
      if wh.Some? then st.(options := o.(maxSize := Vectors.Vec2(wh.value as real, wh.value as real))) else st
    case ConstraintKey =>
      var v := ConstraintNamed(value); if v.Some? then st.(options := o.(sizeConstraint := v.value)) else st
    case BorderKey =>
      var v := NumberIn(value, 0, 32); if v.Some? then st.(options := o.(border := v.value)) else st
    case ExtrusionKey =>
      var v := NumberIn(value, 0, 32); if v.Some? then st.(options := o.(extrusion := v.value)) else st
    case OutputDirKey => st.(outputDir := value)
    case OutputNameKey => st.(options := o.(outputName := value))
  }

  /**
   * `setOption(options, optionName, optionValue)`: an empty name or value and
   * an unknown option leave the settings as they are (the source only logs a
   * warning); otherwise the option the name selects is set from the value.
   */
  function SetOption(st: Settings, optionName: string, optionValue: string): Settings
  {
    var name, value := Normalize(optionName), Normalize(optionValue);
    if name == [] || value == [] then st
    else match KeyNamed(name)
      case None => st
      case Some(k) => SetKey(st, k, value)
  }

  /** `a` and `b` agree on every setting except perhaps the one of `k`. */
  predicate AgreeExcept(a: Settings, b: Settings, k: OptionKey)
  {
    (k != AlgorithmKey ==> a.options.packingAlgorithm == b.options.packingAlgorithm) &&
    (k != GuillotineFitKey ==> a.options.guillotineFitPolicy == b.options.guillotineFitPolicy) &&
    (k != GuillotineSplitKey ==> a.options.guillotineSplitPolicy == b.options.guillotineSplitPolicy) &&
    (k != MaxRectsFitKey ==> a.options.maxRectsFitPolicy == b.options.maxRectsFitPolicy) &&
    (k != OrderingKey ==> a.options.rectangleOrdering == b.options.rectangleOrdering) &&
    (k != WasteKey ==> a.options.wasteImprovement == b.options.wasteImprovement) &&
    (k != MaxSizeKey ==> a.options.maxSize == b.options.maxSize) &&
    (k != ConstraintKey ==> a.options.sizeConstraint == b.options.sizeConstraint) &&
    (k != BorderKey ==> a.options.border == b.options.border) &&
    (k != ExtrusionKey ==> a.options.extrusion == b.options.extrusion) &&
    (k != OutputDirKey ==> a.outputDir == b.outputDir) &&
    (k != OutputNameKey ==> a.options.outputName == b.options.outputName)
  }

  /** `setOption` changes at most the one setting its name selects, and an
      unknown name, or an empty name or value, changes nothing. */
  lemma SetOptionChangesOnlyItsOwn(st: Settings, optionName: string, optionValue: string)
    ensures var name := Normalize(optionName);
      KeyNamed(name).None? || Normalize(optionValue) == [] ==> SetOption(st, optionName, optionValue) == st
    ensures var name := Normalize(optionName);
      KeyNamed(name).Some? ==> AgreeExcept(SetOption(st, optionName, optionValue), st, KeyNamed(name).value)
  {
    var name, value := Normalize(optionName), Normalize(optionValue);
    if KeyNamed(name).Some? {
      SetKeyAgrees(st, KeyNamed(name).value, value);
    }
  }

  /** Lower-casing and trimming twice is doing it once. */
  lemma NormalizeIdempotent(s: string)
    ensures Normalize(Normalize(s)) == Normalize(s)
  {
    var l := Strings.Lower(s);
    var t := TextureAtlases.Trim(l);
    TextureAtlases.TrimDrops(l);
    var i := |l| - |TextureAtlases.TrimStart(l)|;
    assert forall k :: 0 <= k < |t| ==> t[k] == l[i + k];
    Strings.LowerKeeps(t);
    TextureAtlases.TrimIdempotent(l);
  }

  /** Names and values are compared lower-cased and trimmed: any spelling
      with the same normal form sets the same option in the same way. */
  lemma SetOptionNormalizes(st: Settings, optionName: string, optionValue: string)
    ensures SetOption(st, optionName, optionValue) == SetOption(st, Normalize(optionName), Normalize(optionValue))
  {
    NormalizeIdempotent(optionName);
    NormalizeIdempotent(optionValue);
  }

  /** Setting one option leaves the others as they are. */
  lemma SetKeyAgrees(st: Settings, k: OptionKey, value: string)
    ensures AgreeExcept(SetKey(st, k, value), st, k)
  {
    match k {
      case AlgorithmKey =>
      case GuillotineFitKey =>
      case GuillotineSplitKey =>
      case MaxRectsFitKey =>
      case OrderingKey =>
      case WasteKey =>
      case MaxSizeKey =>
      case ConstraintKey =>
      case BorderKey =>
      case ExtrusionKey =>
      case OutputDirKey =>
      case OutputNameKey =>
    }
  }

  /** The parser only accepts a maximum size in [32, 8192] and a border and
      extrusion in [0, 32]: valid options stay valid. */
  lemma SetKeyKeepsValid(st: Settings, k: OptionKey, value: string)
    requires Valid(st.options)
    ensures Valid(SetKey(st, k, value).options)
  {
    SetKeyAgrees(st, k, value);
    if k == MaxSizeKey {
      var wh := NumberIn(value, 32, 8192);
      if wh.Some? {
        assert (wh.value as real).Floor == wh.value;
      }
    }
  }

  lemma SetOptionKeepsValid(st: Settings, optionName: string, optionValue: string)
    requires Valid(st.options)
    ensures Valid(SetOption(st, optionName, optionValue).options)
  {
    var name, value := Normalize(optionName), Normalize(optionValue);
    if name != [] && value != [] && KeyNamed(name).Some? {
      SetKeyKeepsValid(st, KeyNamed(name).value, value);
    }
  }

  // ---------------------------------------------------------------------
  // Option lines and the options file
  // ---------------------------------------------------------------------

  /** `setOption(options, optionPair)`: a blank line is skipped, and a line
      is used only when it splits on ':' into exactly a name and a value. */
  function SetOptionLine(st: Settings, optionPair: string): Settings
  {
    if TextureAtlases.Trim(optionPair) == [] then st
    else
      var pair := Strings.SplitEach(optionPair, ':');
      if |pair| != 2 then st else SetOption(st, pair[0], pair[1])
  }

  /** A line is used only when it holds exactly one ':'. */
  lemma OptionLineNeedsOneColon(st: Settings, optionPair: string)
    requires Strings.Count(optionPair, ':') != 1
    ensures SetOptionLine(st, optionPair) == st
  {
    Strings.SplitEachCount(optionPair, ':');
  }

  /** The lines of the options file, applied in order. */
  function ApplyLines(st: Settings, lines: seq<string>): Settings
    decreases |lines|
  {
    if lines == [] then st else ApplyLines(SetOptionLine(st, lines[0]), lines[1..])
  }

  /** `setOptions(options)`: without an options file nothing changes;
      otherwise every line of it is applied, first to last. */
  method SetOptions(st: Settings, optionFile: Option<string>) returns (st': Settings)
    ensures optionFile.None? ==> st' == st
    ensures optionFile.Some? ==> st' == ApplyLines(st, Strings.SplitEach(optionFile.value, '\n'))
  {
    st' := st;
    if optionFile.None? {
      return;
    }
    var lines := Strings.SplitEach(optionFile.value, '\n');
    for i := 0 to |lines|
      invariant ApplyLines(st, lines) == ApplyLines(st', lines[i..])
    {
      assert lines[i..][1..] == lines[i + 1..];
      st' := SetOptionLine(st', lines[i]);
    }
  }

  /** The lines after a point act on what the lines before it left, so a
      later line overrides an earlier one. */
  lemma {:induction false} ApplyLinesAppend(st: Settings, a: seq<string>, b: seq<string>)
    ensures ApplyLines(st, a + b) == ApplyLines(ApplyLines(st, a), b)
    decreases |a|
  {
    if a == [] {
      assert a + b == b;
    } else {
      assert (a + b)[1..] == a[1..] + b;
      ApplyLinesAppend(SetOptionLine(st, a[0]), a[1..], b);
    }
  }

  /** Valid options stay valid whatever the options file holds. */
  lemma {:induction false} ApplyLinesKeepsValid(st: Settings, lines: seq<string>)
    requires Valid(st.options)
    ensures Valid(ApplyLines(st, lines).options)
    decreases |lines|
  {
    if lines != [] {
      var pair := Strings.SplitEach(lines[0], ':');
      if TextureAtlases.Trim(lines[0]) != [] && |pair| == 2 {
        SetOptionKeepsValid(st, pair[0], pair[1]);
      }
      ApplyLinesKeepsValid(SetOptionLine(st, lines[0]), lines[1..]);
    }
  }

  // ---------------------------------------------------------------------
  // Writing settings back as an options file
  // ---------------------------------------------------------------------

  /** A name or value as an options file can hold it unchanged: lower case,
      no ':' or line break, not empty and without white space at either end. */
  predicate Plain(v: string)
  {
    v != [] && !TextureAtlases.IsSpace(v[0]) && !TextureAtlases.IsSpace(v[|v| - 1]) &&
    forall i :: 0 <= i < |v| ==> PlainChar(v[i])
  }

  predicate PlainChar(c: char)
  {
    c != ':' && c != '\n' && !('A' <= c <= 'Z')
  }

  /** The value of the setting `k` in `st`, as an options file spells it. */
  function ValueOf(st: Settings, k: OptionKey): string
    requires Valid(st.options)
  {
    var o := st.options;
    match k
    case AlgorithmKey => AlgorithmName(o.packingAlgorithm)
    case GuillotineFitKey => GuillotineFitName(o.guillotineFitPolicy)
    case GuillotineSplitKey => SplitName(o.guillotineSplitPolicy)
    case MaxRectsFitKey => MaxRectsFitName(o.maxRectsFitPolicy)
    case OrderingKey => OrderingName(o.rectangleOrdering)
    case WasteKey => BooleanName(o.wasteImprovement)
    case MaxSizeKey => Strings.Decimal(o.maxSize.x.Floor)
    case ConstraintKey => ConstraintName(o.sizeConstraint)
    case BorderKey => Strings.Decimal(o.border)
    case ExtrusionKey => Strings.Decimal(o.extrusion)
    case OutputDirKey => st.outputDir
    case OutputNameKey => o.outputName
  }

  /** `st` with the setting `k` taken from `src`. */
  function CopyKey(st: Settings, src: Settings, k: OptionKey): Settings
  {
    var o, s := st.options, src.options;
    match k
    case AlgorithmKey => st.(options := o.(packingAlgorithm := s.packingAlgorithm))
    case GuillotineFitKey => st.(options := o.(guillotineFitPolicy := s.guillotineFitPolicy))
    case GuillotineSplitKey => st.(options := o.(guillotineSplitPolicy := s.guillotineSplitPolicy))
    case MaxRectsFitKey => st.(options := o.(maxRectsFitPolicy := s.maxRectsFitPolicy))
    case OrderingKey => st.(options := o.(rectangleOrdering := s.rectangleOrdering))
    case WasteKey => st.(options := o.(wasteImprovement := s.wasteImprovement))
    case MaxSizeKey => st.(options := o.(maxSize := s.maxSize))
    case ConstraintKey => st.(options := o.(sizeConstraint := s.sizeConstraint))
    case BorderKey => st.(options := o.(border := s.border))
    case ExtrusionKey => st.(options := o.(extrusion := s.extrusion))
    case OutputDirKey => st.(outputDir := src.outputDir)
    case OutputNameKey => st.(options := o.(outputName := s.outputName))
  }

  /** Every option, in the order an options file lists them. */
  const AllKeys: seq<OptionKey> := [AlgorithmKey, GuillotineFitKey, GuillotineSplitKey, MaxRectsFitKey, OrderingKey, WasteKey,
                                    MaxSizeKey, ConstraintKey, BorderKey, ExtrusionKey, OutputDirKey, OutputNameKey]

  /** The line `name: value`. */
  function OptionLine(name: string, value: string): string
  {
    name + ": " + value
  }

  /** One line per option of `keys`, each giving its value in `st`. */
  function OptionLines(st: Settings, keys: seq<OptionKey>): (lines: seq<string>)
    requires Valid(st.options)
    ensures |lines| == |keys|
  {
    if keys == [] then [] else [OptionLine(KeyName(keys[0]), ValueOf(st, keys[0]))] + OptionLines(st, keys[1..])
  }

  lemma {:induction false} OptionLinesAt(st: Settings, keys: seq<OptionKey>, i: nat)
    requires Valid(st.options) && i < |keys|
    ensures OptionLines(st, keys)[i] == OptionLine(KeyName(keys[i]), ValueOf(st, keys[i]))
    decreases i
  {
    if i > 0 {
      OptionLinesAt(st, keys[1..], i - 1);
    }
  }

  /** The options file that selects every setting of `st`. */
  function OptionsFile(st: Settings): string
    requires Valid(st.options)
  {
    Strings.Join(OptionLines(st, AllKeys), '\n')
  }

  /** A plain string is its own normal form, also after a leading blank. */
  lemma PlainIsNormal(v: string)
    requires Plain(v)
    ensures Normalize(v) == v && Normalize(" " + v) == v
  {
    Strings.LowerKeeps(v);
    TextureAtlases.TrimKeepsTrimmed(v);
    var p := " " + v;
    Strings.LowerKeeps(p);
    assert p[1..] == v;
    assert TextureAtlases.TrimStart(p) == TextureAtlases.TrimStart(v);
  }

  /** A line `name: value` of plain strings sets the option `name` to `value`. */
  lemma OptionLineSets(st: Settings, name: string, value: string)
    requires Plain(name) && Plain(value)
    ensures SetOptionLine(st, OptionLine(name, value)) == SetOption(st, name, value)
  {
    OptionLineNotBlank(name, value);
    OptionLineSplits(name, value);
    PlainIsNormal(name);
    PlainIsNormal(value);
    SetOptionNormalizes(st, name, " " + value);
  }

  /** A line of plain name and value is not blank. */
  lemma OptionLineNotBlank(name: string, value: string)
    requires Plain(name) && Plain(value)
    ensures TextureAtlases.Trim(OptionLine(name, value)) != []
  {
    var line := OptionLine(name, value);
    assert line[0] == name[0];
    assert TextureAtlases.TrimStart(line) == line;
    assert line[|line| - 1] == value[|value| - 1];
    assert TextureAtlases.TrimEnd(line) == line;
  }

  /** A line of plain name and value splits at its one ':'. */
  lemma OptionLineSplits(name: string, value: string)
    requires Plain(name) && Plain(value)
    ensures Strings.SplitEach(OptionLine(name, value), ':') == [name, " " + value]
  {
    assert OptionLine(name, value) == Strings.Join([name, " " + value], ':');
    assert ':' !in " " + value;
    Strings.JoinSplitEach([name, " " + value], ':');
  }

  lemma DecimalIsPlain(n: nat)
    ensures Plain(Strings.Decimal(n))
  {
  }

  /** The value written for each setting is plain, and reads back as that setting. */
  lemma {:induction false} SetKeyCopies(st: Settings, src: Settings, k: OptionKey)
    requires Valid(src.options) && Plain(src.options.outputName) && Plain(src.outputDir)
    ensures Plain(ValueOf(src, k))
    ensures SetKey(st, k, ValueOf(src, k)) == CopyKey(st, src, k)
  {
    var value := ValueOf(src, k);
    var s := src.options;
    match k {
      case AlgorithmKey =>
      case GuillotineFitKey =>
      case GuillotineSplitKey =>
      case MaxRectsFitKey =>
      case OrderingKey =>
      case WasteKey =>
      case ConstraintKey =>
      case MaxSizeKey =>
        DecimalIsPlain(s.maxSize.x.Floor);
        Strings.StoiDecimal(s.maxSize.x.Floor);
      case BorderKey =>
        DecimalIsPlain(s.border);
        Strings.StoiDecimal(s.border);
      case ExtrusionKey =>
        DecimalIsPlain(s.extrusion);
        Strings.StoiDecimal(s.extrusion);
      case OutputDirKey =>
      case OutputNameKey =>
    }
  }

  /** The line for the setting `k` of `src` copies that setting. */
  lemma KeyLineCopies(st: Settings, src: Settings, k: OptionKey)
    requires Valid(src.options) && Plain(src.options.outputName) && Plain(src.outputDir)
    ensures SetOptionLine(st, OptionLine(KeyName(k), ValueOf(src, k))) == CopyKey(st, src, k)
  {
    var name, value := KeyName(k), ValueOf(src, k);
    SetKeyCopies(st, src, k);
    OptionLineSets(st, name, value);
    PlainIsNormal(name);
    PlainIsNormal(value);
  }

  /** `st` with every setting of `keys` taken from `src`, in order. */
  function CopyKeys(st: Settings, src: Settings, keys: seq<OptionKey>): Settings
    decreases |keys|
  {
    if keys == [] then st else CopyKeys(CopyKey(st, src, keys[0]), src, keys[1..])
  }

  /** The lines for `keys` copy those settings, one after the other. */
  lemma {:induction false} OptionLinesCopy(st: Settings, src: Settings, keys: seq<OptionKey>)
    requires Valid(src.options) && Plain(src.options.outputName) && Plain(src.outputDir)
    ensures ApplyLines(st, OptionLines(src, keys)) == CopyKeys(st, src, keys)
    decreases |keys|
  {
    if keys != [] {
      KeyLineCopies(st, src, keys[0]);
      assert OptionLines(src, keys)[1..] == OptionLines(src, keys[1..]);
      OptionLinesCopy(CopyKey(st, src, keys[0]), src, keys[1..]);
    }
  }

  /** `a` and `b` hold the same value for the setting `k`. */
  predicate Same(a: Settings, b: Settings, k: OptionKey)
  {
    match k
    case AlgorithmKey => a.options.packingAlgorithm == b.options.packingAlgorithm
    case GuillotineFitKey => a.options.guillotineFitPolicy == b.options.guillotineFitPolicy
    case GuillotineSplitKey => a.options.guillotineSplitPolicy == b.options.guillotineSplitPolicy
    case MaxRectsFitKey => a.options.maxRectsFitPolicy == b.options.maxRectsFitPolicy
    case OrderingKey => a.options.rectangleOrdering == b.options.rectangleOrdering
    case WasteKey => a.options.wasteImprovement == b.options.wasteImprovement
    case MaxSizeKey => a.options.maxSize == b.options.maxSize
    case ConstraintKey => a.options.sizeConstraint == b.options.sizeConstraint
    case BorderKey => a.options.border == b.options.border
    case ExtrusionKey => a.options.extrusion == b.options.extrusion
    case OutputDirKey => a.outputDir == b.outputDir
    case OutputNameKey => a.options.outputName == b.options.outputName
  }

  lemma SameTrans(a: Settings, b: Settings, c: Settings, k: OptionKey)
    requires Same(a, b, k) && Same(b, c, k)
    ensures Same(a, c, k)
  {
  }

  /** Copying the setting `k0` sets it and keeps every other one. */
  lemma CopyKeySame(st: Settings, src: Settings, k0: OptionKey)
    ensures Same(CopyKey(st, src, k0), src, k0)
    ensures forall k :: k != k0 ==> Same(CopyKey(st, src, k0), st, k)
  {
  }

  /** After copying `keys`, those settings are `src`'s and the others `st`'s. */
  lemma {:induction false} CopyKeysSame(st: Settings, src: Settings, keys: seq<OptionKey>)
    ensures forall k :: k in keys ==> Same(CopyKeys(st, src, keys), src, k)
    ensures forall k :: k !in keys ==> Same(CopyKeys(st, src, keys), st, k)
    decreases |keys|
  {
    if keys != [] {
      var c := CopyKey(st, src, keys[0]);
      var r := CopyKeys(c, src, keys[1..]);
      CopyKeysSame(c, src, keys[1..]);
      CopyKeySame(st, src, keys[0]);
      forall k | k in keys
        ensures Same(r, src, k)
      {
        if k !in keys[1..] {
          SameTrans(r, c, src, k);
        }
      }
      forall k | k !in keys
        ensures Same(r, st, k)
      {
        SameTrans(r, c, st, k);
      }
    }
  }

  /** Settings that agree on every option are equal. */
  lemma SameEverywhere(a: Settings, b: Settings)
    requires forall k :: Same(a, b, k)
    ensures a == b
  {
    assert Same(a, b, AlgorithmKey) && Same(a, b, GuillotineFitKey) && Same(a, b, GuillotineSplitKey);
    assert Same(a, b, MaxRectsFitKey) && Same(a, b, OrderingKey) && Same(a, b, WasteKey);
    assert Same(a, b, MaxSizeKey) && Same(a, b, ConstraintKey) && Same(a, b, BorderKey);
    assert Same(a, b, ExtrusionKey) && Same(a, b, OutputDirKey) && Same(a, b, OutputNameKey);
  }

  /** Copying every setting gives the source settings. */
  lemma CopyAllKeys(st: Settings, src: Settings)
    ensures CopyKeys(st, src, AllKeys) == src
  {
    var r := CopyKeys(st, src, AllKeys);
    CopyKeysSame(st, src, AllKeys);
    AllKeysListed();
    SameEverywhere(r, src);
  }

  /** Every option has its line in an options file. */
  lemma AllKeysListed()
    ensures forall k :: k in AllKeys
  {
    forall k
      ensures k in AllKeys
    {
      match k {
        case AlgorithmKey => assert AllKeys[0] == k;
        case GuillotineFitKey => assert AllKeys[1] == k;
        case GuillotineSplitKey => assert AllKeys[2] == k;
        case MaxRectsFitKey => assert AllKeys[3] == k;
        case OrderingKey => assert AllKeys[4] == k;
        case WasteKey => assert AllKeys[5] == k;
        case MaxSizeKey => assert AllKeys[6] == k;
        case ConstraintKey => assert AllKeys[7] == k;
        case BorderKey => assert AllKeys[8] == k;
        case ExtrusionKey => assert AllKeys[9] == k;
        case OutputDirKey => assert AllKeys[10] == k;
        case OutputNameKey => assert AllKeys[11] == k;
      }
    }
  }

  /** A line of plain name and value holds no line break. */
  lemma OptionLineOneLine(name: string, value: string)
    requires Plain(name) && Plain(value)
    ensures '\n' !in OptionLine(name, value)
  {
    var line := OptionLine(name, value);
    forall i | 0 <= i < |line|
      ensures line[i] != '\n'
    {
      if i < |name| {
        assert line[i] == name[i];
      } else if i >= |name| + 2 {
        assert line[i] == value[i - |name| - 2];
      }
    }
  }

  /** The lines for `keys`, written as a file and read back, copy those settings. */
  lemma LinesFileCopies(st: Settings, src: Settings, keys: seq<OptionKey>)
    requires Valid(src.options) && Plain(src.options.outputName) && Plain(src.outputDir)
    requires |keys| >= 1
    ensures ApplyLines(st, Strings.SplitEach(Strings.Join(OptionLines(src, keys), '\n'), '\n')) == CopyKeys(st, src, keys)
  {
    var ls := OptionLines(src, keys);
    forall i | 0 <= i < |ls|
      ensures '\n' !in ls[i]
    {
      OptionLinesAt(src, keys, i);
      SetKeyCopies(st, src, keys[i]);
      OptionLineOneLine(KeyName(keys[i]), ValueOf(src, keys[i]));
    }
    Strings.JoinSplitEach(ls, '\n');
    OptionLinesCopy(st, src, keys);
  }

  /** The options file written for settings `src` reads back as `src`,
      whatever the settings were before. */
  lemma OptionsFileRoundTrip(st: Settings, src: Settings)
    requires Valid(src.options) && Plain(src.options.outputName) && Plain(src.outputDir)
    ensures ApplyLines(st, Strings.SplitEach(OptionsFile(src), '\n')) == src
  {
    LinesFileCopies(st, src, AllKeys);
    CopyAllKeys(st, src);
  }

  // ---------------------------------------------------------------------
  // Border and extrusion
  // ---------------------------------------------------------------------

  /** What padding adds to each side length: twice the border and the
      extrusion, each the image's own when it names one, else the options'. */
  function Pad(o: PackerOptions, img: PackableImage): (pad: real)
    ensures pad >= 0.0
  {
    var border := if img.border.Some? then img.border.value else o.border;
    var extrusion := if img.extrusion.Some? then img.extrusion.value else o.extrusion;
    2.0 * (border + extrusion) as real
  }

  /** `addBorderExtrusion(options, imgSize, pi)`: the size with the padding added. */
  function AddBorderExtrusion(o: PackerOptions, size: Vectors.Vec2, img: PackableImage): (padded: Vectors.Vec2)
    ensures padded.x - size.x == padded.y - size.y == Pad(o, img)
  {
    Vectors.Add(size, Vectors.Scale(Pad(o, img), Vectors.One))
  }

  /** `addBorderExtrusion(options, r, pi)`: the rect grown about its centre. */
  function AddBorderExtrusionRect(o: PackerOptions, r: Rect, img: PackableImage): (padded: Rect)
    requires WellFormed(r)
    ensures padded.center == r.center && padded.size == AddBorderExtrusion(o, r.size, img)
  {
    SetSize(r, Vectors.Add(r.size, Vectors.Scale(Pad(o, img), Vectors.One)))
  }

  /** `removeBorderExtrusion(options, r, pi)`: the rect shrunk about its
      centre; the packer applies it only to a rect it padded. */
  function RemoveBorderExtrusion(o: PackerOptions, r: Rect, img: PackableImage): (q: Rect)
    requires r.size.x >= Pad(o, img) && r.size.y >= Pad(o, img)
    ensures q.center == r.center && WellFormed(q)
  {
    SetSize(r, Vectors.Sub(r.size, Vectors.Scale(Pad(o, img), Vectors.One)))
  }

  /** Removing the padding undoes adding it. */
  lemma RemoveAfterAdd(o: PackerOptions, r: Rect, img: PackableImage)
    requires WellFormed(r)
    ensures RemoveBorderExtrusion(o, AddBorderExtrusionRect(o, r, img), img) == r
  {
  }

  /** Adding the padding undoes removing it. */
  lemma AddAfterRemove(o: PackerOptions, r: Rect, img: PackableImage)
    requires r.size.x >= Pad(o, img) && r.size.y >= Pad(o, img)
    ensures AddBorderExtrusionRect(o, RemoveBorderExtrusion(o, r, img), img) == r
  {
  }

  // ---------------------------------------------------------------------
  // Ordering the images
  // ---------------------------------------------------------------------

  /** The sort key: the images come in ascending order of it. */
  function SortKey(o: PackerOptions, img: PackableImage): real
  {
    if o.rectangleOrdering == LargestFirst then -Vectors.Area(img.size) else Vectors.Area(img.size)
  }

  predicate SortedFor(o: PackerOptions, images: seq<PackableImage>)
  {
    forall i, j :: 0 <= i < j < |images| ==> SortKey(o, images[i]) <= SortKey(o, images[j])
  }

  /** Insertion of one image before the first with a key at least as large. */
  function InsertImage(o: PackerOptions, img: PackableImage, sorted: seq<PackableImage>): (r: seq<PackableImage>)
    ensures multiset(r) == multiset(sorted) + multiset{img}
  {
    if sorted == [] then [img]
    else if SortKey(o, img) <= SortKey(o, sorted[0]) then [img] + sorted
    else
      assert sorted == [sorted[0]] + sorted[1..];
      [sorted[0]] + InsertImage(o, img, sorted[1..])
  }

  /** `std::sort` of the images by area, largest or smallest first as the
      options say (the model fixes one order among images of equal area). */
  function SortImages(o: PackerOptions, images: seq<PackableImage>): (r: seq<PackableImage>)
    ensures multiset(r) == multiset(images)
  {
    if images == [] then []
    else
      assert images == [images[0]] + images[1..];
      InsertImage(o, images[0], SortImages(o, images[1..]))
  }

  lemma ConsSortedImages(o: PackerOptions, h: PackableImage, rest: seq<PackableImage>)
    requires SortedFor(o, rest)
    requires forall x :: x in rest ==> SortKey(o, h) <= SortKey(o, x)
    ensures SortedFor(o, [h] + rest)
  {
    var r := [h] + rest;
    forall i, j | 0 <= i < j < |r|
      ensures SortKey(o, r[i]) <= SortKey(o, r[j])
    {
      assert r[j] == rest[j - 1];
      if i > 0 {
        assert r[i] == rest[i - 1];
      }
    }
  }

  lemma {:induction false} InsertImageSorted(o: PackerOptions, img: PackableImage, sorted: seq<PackableImage>)
    requires SortedFor(o, sorted)
    ensures SortedFor(o, InsertImage(o, img, sorted))
    decreases |sorted|
  {
    if sorted == [] {
    } else if SortKey(o, img) <= SortKey(o, sorted[0]) {
      forall x | x in sorted
        ensures SortKey(o, img) <= SortKey(o, x)
      {
        var k :| 0 <= k < |sorted| && sorted[k] == x;
      }
      ConsSortedImages(o, img, sorted);
    } else {
      var tail := sorted[1..];
      InsertImageSorted(o, img, tail);
      forall x | x in InsertImage(o, img, tail)
        ensures SortKey(o, sorted[0]) <= SortKey(o, x)
      {
        assert x in multiset(InsertImage(o, img, tail));
        if x != img {
          var k :| 0 <= k < |tail| && tail[k] == x;
          assert sorted[k + 1] == x;
        }
      }
      ConsSortedImages(o, sorted[0], InsertImage(o, img, tail));
    }
  }

  /** The sort puts the images in order of area, as the ordering option asks. */
  lemma {:induction false} SortImagesSorted(o: PackerOptions, images: seq<PackableImage>)
    ensures SortedFor(o, SortImages(o, images))
  {
    if images != [] {
      SortImagesSorted(o, images[1..]);
      InsertImageSorted(o, images[0], SortImages(o, images[1..]));
    }
  }

  // ---------------------------------------------------------------------
  // Texture names must be unique
  // ---------------------------------------------------------------------

  predicate UniqueNames(images: seq<PackableImage>)
  {
    forall i, j :: 0 <= i < j < |images| ==> images[i].name != images[j].name
  }

  /** The check of `internalPack` that throws on the first name seen twice. */
  method HasDuplicateName(images: seq<PackableImage>) returns (dup: bool)
    ensures dup <==> !UniqueNames(images)
  {
    var names: set<string> := {};
    for i := 0 to |images|
      invariant UniqueNames(images[..i])
      invariant names == set j | 0 <= j < i :: images[j].name
    {
      if images[i].name in names {
        return true;
      }
      names := names + {images[i].name};
    }
    assert images[..|images|] == images;
    return false;
  }

  // ---------------------------------------------------------------------
  // One texture: a pass over the images not yet packed
  // ---------------------------------------------------------------------

  /** What a pass does with one image: leaves it out for good (too large),
      packs it at `rect`, or keeps it for the next texture. */
  datatype Fate = Dropped | Packed(rect: Rect) | Deferred

  /** `packedTexture`: its index, and each packed image under the rect it
      occupies (without padding). */
  datatype PackedTexture = PackedTexture(index: nat, packedImages: map<Rect, PackableImage>)

  /** The size test that leaves an image out: on its own size, as the packer
      is written, or on its padded size. */
  datatype SizeCheck = RawSize | PaddedSize

  predicate Exceeds(size: Vectors.Vec2, maxSize: Vectors.Vec2)
  {
    size.x > maxSize.x || size.y > maxSize.y
  }

  predicate TooLarge(check: SizeCheck, o: PackerOptions, img: PackableImage)
  {
    if check == RawSize then Exceeds(img.size, o.maxSize)
    else Exceeds(AddBorderExtrusion(o, img.size, img), o.maxSize)
  }

  /** An image file's size: no side is negative. */
  predicate Sized(img: PackableImage)
  {
    img.size.x >= 0.0 && img.size.y >= 0.0
  }

  /** The texture's map after the fates of `images`: each packed image is
      stored under its rect, a later one replacing an earlier one at the
      same rect. */
  function Stored(images: seq<PackableImage>, fates: seq<Fate>): map<Rect, PackableImage>
    requires |images| == |fates|
    decreases |images|
  {
    if images == [] then map[]
    else
      var n := |images| - 1;
      var m := Stored(images[..n], fates[..n]);
      if fates[n].Packed? then m[fates[n].rect := images[n]] else m
  }

  /** The images left for the next pass, in their order. */
  function Remaining(images: seq<PackableImage>, fates: seq<Fate>): seq<PackableImage>
    requires |images| == |fates|
    decreases |images|
  {
    if images == [] then []
    else
      var n := |images| - 1;
      Remaining(images[..n], fates[..n]) + (if fates[n].Deferred? then [images[n]] else [])
  }

  /** Every stored image was packed at its rect by the pass. */
  lemma {:induction false} StoredPacked(images: seq<PackableImage>, fates: seq<Fate>, r: Rect)
    requires |images| == |fates| && r in Stored(images, fates)
    ensures exists i :: 0 <= i < |images| && fates[i] == Packed(r) && Stored(images, fates)[r] == images[i]
    decreases |images|
  {
    var n := |images| - 1;
    if !(fates[n].Packed? && fates[n].rect == r) {
      StoredPacked(images[..n], fates[..n], r);
      var i :| 0 <= i < n && fates[..n][i] == Packed(r) && Stored(images[..n], fates[..n])[r] == images[..n][i];
      assert fates[i] == Packed(r) && images[i] == images[..n][i];
    }
  }

  /** A pass that packs or drops an image defers fewer images than it was given. */
  lemma {:induction false} RemainingShrinks(images: seq<PackableImage>, fates: seq<Fate>)
    requires |images| == |fates|
    ensures |Remaining(images, fates)| <= |images|
    ensures (exists i :: 0 <= i < |fates| && !fates[i].Deferred?) ==> |Remaining(images, fates)| < |images|
    decreases |images|
  {
    if images != [] {
      var n := |images| - 1;
      RemainingShrinks(images[..n], fates[..n]);
      if exists i :: 0 <= i < |fates| && !fates[i].Deferred? {
        var i :| 0 <= i < |fates| && !fates[i].Deferred?;
        if i < n {
          assert !fates[..n][i].Deferred?;
        }
      }
    }
  }

  /** Every deferred image is one of the images of the pass. */
  lemma {:induction false} RemainingFrom(images: seq<PackableImage>, fates: seq<Fate>)
    requires |images| == |fates|
    ensures forall x :: x in Remaining(images, fates) ==> x in images
    decreases |images|
  {
    if images != [] {
      var n := |images| - 1;
      RemainingFrom(images[..n], fates[..n]);
      assert forall x :: x in images[..n] ==> x in images;
    }
  }

  /** The state `initializeContext` leaves each context in, for a bin of `size`. */
  ghost predicate Initial(gc: Guillotines.Context, mc: MaxRects.Context, sc: Skylines.Context, size: Vectors.Vec2)
    reads gc, mc, sc
  {
    GuillotineInitial(gc, size) && MaxRectsInitial(mc, size) && SkylineInitial(sc, size)
  }

  ghost predicate GuillotineInitial(gc: Guillotines.Context, size: Vectors.Vec2)
    reads gc
  {
    gc.freeRectangles == {Guillotines.NewRect(Vectors.Zero, size)} && gc.packedArea == 0.0 && gc.totalArea == Vectors.Area(size)
  }

  ghost predicate MaxRectsInitial(mc: MaxRects.Context, size: Vectors.Vec2)
    reads mc
  {
    mc.freeRectangles == {Guillotines.NewRect(Vectors.Zero, size)} && mc.packedArea == 0.0 && mc.totalArea == Vectors.Area(size)
  }

  ghost predicate SkylineInitial(sc: Skylines.Context, size: Vectors.Vec2)
    reads sc
  {
    sc.skyline == Skylines.CreateSkyline(size) && sc.guillotineContexts == map[] && sc.freeRectangle == size &&
    sc.packedArea == 0.0 && sc.totalArea == Vectors.Area(size)
  }

  /** A size no larger than the bin has no larger area. */
  lemma AreaWithin(r: Vectors.Vec2, size: Vectors.Vec2)
    requires 0.0 <= r.x <= size.x && 0.0 <= r.y <= size.y
    ensures Vectors.Area(r) <= Vectors.Area(size)
  {
    assert Vectors.Area(r) == r.x * r.y && Vectors.Area(size) == size.x * size.y;
    assert r.x * r.y <= size.x * r.y by {
      assert (size.x - r.x) * r.y >= 0.0;
    }
    assert size.x * r.y <= size.x * size.y by {
      assert size.x * (size.y - r.y) >= 0.0;
    }
  }

  /** The empty bin fits exactly the sizes no larger than it. */
  lemma EmptyBinFits(r: Vectors.Vec2, size: Vectors.Vec2)
    ensures Guillotines.Fits(Guillotines.NewRect(Vectors.Zero, size), r) <==> r.x <= size.x && r.y <= size.y
  {
    Guillotines.FitsIffSmaller(Guillotines.NewRect(Vectors.Zero, size), r);
  }

  /** The flat skyline of an empty bin is a place exactly for the sizes no
      larger than the bin. */
  lemma EmptySkylinePlace(r: Vectors.Vec2, size: Vectors.Vec2)
    ensures Skylines.IsPlace(Skylines.CreateSkyline(size), size.y, r, 0) <==> r.x <= size.x && r.y <= size.y
  {
    var s := Skylines.CreateSkyline(size);
    assert !Skylines.Reaches(s, 0.0, 1, size.x, r.x);
  }

  /** `Guillotine::tryPack`: into an empty bin, exactly the sizes no larger than it fit. */
  method TryGuillotine(gc: Guillotines.Context, r: Vectors.Vec2, size: Vectors.Vec2, ghost initial: bool) returns (res: Option<Rect>)
    requires gc.Valid() && r.x >= 0.0 && r.y >= 0.0
    requires initial ==> GuillotineInitial(gc, size)
    modifies gc
    ensures gc.Valid() && gc.bin == old(gc.bin)
    ensures res.None? ==> gc.packedRectangles == old(gc.packedRectangles)
    ensures res.Some? ==> res.value.size == r
    ensures res.Some? ==> gc.packedRectangles == old(gc.packedRectangles) + [res.value] && ContainsRect(gc.bin, res.value)
    ensures res.Some? ==> exists f :: Guillotines.Chosen(old(gc.freeRectangles), gc.fitPolicy, r, f) && res.value == Guillotines.NewRect(BottomLeft(f), r)
    ensures initial && size.x > 0.0 && size.y > 0.0 ==> (res.Some? <==> r.x <= size.x && r.y <= size.y)
  {
    EmptyBinFits(r, size);
    if initial && r.x <= size.x && r.y <= size.y {
      AreaWithin(r, size);
    }
    res := gc.TryPack(r);
    if res.Some? {
      assert gc.packedRectangles[|gc.packedRectangles| - 1] == res.value;
    }
  }

  /** `MaxRects::tryPack`: into an empty bin, exactly the sizes no larger than it fit. */
  method TryMaxRects(mc: MaxRects.Context, r: Vectors.Vec2, size: Vectors.Vec2, ghost initial: bool) returns (res: Option<Rect>)
    requires mc.Valid() && r.x >= 0.0 && r.y >= 0.0
    requires initial ==> MaxRectsInitial(mc, size)
    modifies mc
    ensures mc.Valid() && mc.bin == old(mc.bin)
    ensures res.None? ==> mc.packedRectangles == old(mc.packedRectangles)
    ensures res.Some? ==> res.value.size == r
    ensures res.Some? ==> mc.packedRectangles == old(mc.packedRectangles) + [res.value] && ContainsRect(mc.bin, res.value)
    ensures res.Some? ==> exists f :: MaxRects.Chosen(old(mc.freeRectangles), mc.fp, r, f) && res.value == Guillotines.NewRect(BottomLeft(f), r)
    ensures initial && size.x > 0.0 && size.y > 0.0 ==> (res.Some? <==> r.x <= size.x && r.y <= size.y)
  {
    EmptyBinFits(r, size);
    if initial && r.x <= size.x && r.y <= size.y {
      AreaWithin(r, size);
    }
    res := mc.TryPack(r);
    if res.Some? {
      assert mc.packedRectangles[|mc.packedRectangles| - 1] == res.value;
    }
  }

  /** `Skyline::tryPack`: onto an empty bin, exactly the sizes no larger than it fit. */
  method TrySkyline(sc: Skylines.Context, r: Vectors.Vec2, size: Vectors.Vec2, ghost initial: bool) returns (res: Option<Rect>)
    requires sc.Valid() && r.x >= 0.0 && r.y >= 0.0
    requires initial ==> SkylineInitial(sc, size)
    modifies sc, sc.guillotineContexts.Values
    ensures sc.Valid()
    ensures forall k :: k in sc.guillotineContexts && k !in old(sc.guillotineContexts) ==> fresh(sc.guillotineContexts[k])
    ensures forall k :: k in old(sc.guillotineContexts) ==> k in sc.guillotineContexts && sc.guillotineContexts[k] == old(sc.guillotineContexts[k])
    ensures sc.freeRectangle == old(sc.freeRectangle)
    ensures res.None? ==> sc.packedRectangles == old(sc.packedRectangles)
    ensures res.Some? ==> res.value.size == r
    ensures res.Some? ==> sc.packedRectangles == old(sc.packedRectangles) + [res.value] && Skylines.InBin(res.value, sc.freeRectangle)
    ensures res.Some? ==>
      (exists k :: k in old(sc.guillotineContexts) && ContainsRect(k, res.value)) ||
      exists p: nat :: Skylines.PackedOn(old(sc.skyline), sc.freeRectangle.y, r, p, res.value, sc.skyline)
    ensures initial && size.x > 0.0 && size.y > 0.0 ==> (res.Some? <==> r.x <= size.x && r.y <= size.y)
  {
    EmptySkylinePlace(r, size);
    if initial && r.x <= size.x && r.y <= size.y {
      AreaWithin(r, size);
    }
    res := sc.TryPack(r);
    if res.Some? && initial {
      var rect := res.value;
      assert !exists k :: k in old(sc.guillotineContexts) && ContainsRect(k, rect);
      var p: nat :| Skylines.PackedOn(old(sc.skyline), size.y, r, p, res.value, sc.skyline);
      assert p == 0;
    }
  }

  /** `tryPack` of the algorithm the options choose, on padded size `r`. */
  method TryPackWith(o: PackerOptions, gc: Guillotines.Context, mc: MaxRects.Context, sc: Skylines.Context, r: Vectors.Vec2, ghost initial: bool)
    returns (res: Option<Rect>)
    requires gc.Valid() && mc.Valid() && sc.Valid() && r.x >= 0.0 && r.y >= 0.0
    requires initial ==> Initial(gc, mc, sc, o.maxSize)
    requires InMaxBin(o, gc, mc, sc)
    requires forall k :: k in sc.guillotineContexts ==> sc.guillotineContexts[k] != gc
    modifies gc, mc, sc, sc.guillotineContexts.Values
    ensures gc.Valid() && mc.Valid() && sc.Valid() && InMaxBin(o, gc, mc, sc)
    ensures forall k :: k in sc.guillotineContexts ==> sc.guillotineContexts[k] != gc
    ensures forall k :: k in sc.guillotineContexts && k !in old(sc.guillotineContexts) ==> fresh(sc.guillotineContexts[k])
    ensures forall k :: k in old(sc.guillotineContexts) ==> k in sc.guillotineContexts && sc.guillotineContexts[k] == old(sc.guillotineContexts[k])
    ensures PackedBy(o, gc, mc, sc) == old(PackedBy(o, gc, mc, sc)) + (if res.Some? then [res.value] else [])
    ensures res.Some? ==> res.value.size == r && Skylines.InBin(res.value, o.maxSize)
    ensures initial && o.maxSize.x > 0.0 && o.maxSize.y > 0.0 ==> (res.Some? <==> r.x <= o.maxSize.x && r.y <= o.maxSize.y)
  {
    if o.packingAlgorithm == GuillotinePacking {
      res := TryGuillotine(gc, r, o.maxSize, initial);
    } else if o.packingAlgorithm == MaxRectsPacking {
      res := TryMaxRects(mc, r, o.maxSize, initial);
    } else {
      res := TrySkyline(sc, r, o.maxSize, initial);
    }
    if res.Some? {
      assert Skylines.InBin(res.value, o.maxSize);
    }
  }

  /** The position of the first image a pass does not drop (the number of
      fates when it drops them all). */
  function FirstKept(fates: seq<Fate>): (f: nat)
    ensures f <= |fates| && (f < |fates| ==> !fates[f].Dropped?)
    ensures forall k :: 0 <= k < f ==> fates[k].Dropped?
    decreases |fates|
  {
    if fates == [] then 0
    else
      var n := |fates| - 1;
      var f := FirstKept(fates[..n]);
      if f < n then f else if fates[n].Dropped? then n + 1 else n
  }

  /** Each context of a pass works in a bin of the maximum size at the origin. */
  ghost predicate InMaxBin(o: PackerOptions, gc: Guillotines.Context, mc: MaxRects.Context, sc: Skylines.Context)
    reads gc, mc, sc
  {
    gc.bin == Guillotines.NewRect(Vectors.Zero, o.maxSize) && mc.bin == Guillotines.NewRect(Vectors.Zero, o.maxSize) &&
    sc.freeRectangle == o.maxSize
  }

  /** The rects the algorithm the options choose has packed so far. */
  ghost function PackedBy(o: PackerOptions, gc: Guillotines.Context, mc: MaxRects.Context, sc: Skylines.Context): seq<Rect>
    reads gc, mc, sc
  {
    if o.packingAlgorithm == GuillotinePacking then gc.packedRectangles
    else if o.packingAlgorithm == MaxRectsPacking then mc.packedRectangles
    else sc.packedRectangles
  }

  /** The contexts of a pass are sound and apart and work in the bin of the
      maximum size, and before an image has been kept they are as
      `initializeContext` left them. */
  ghost predicate Ready(o: PackerOptions, gc: Guillotines.Context, mc: MaxRects.Context, sc: Skylines.Context, started: bool)
    reads gc, mc, sc, sc.guillotineContexts.Values
  {
    gc.Valid() && mc.Valid() && sc.Valid() && InMaxBin(o, gc, mc, sc) &&
    (forall k :: k in sc.guillotineContexts ==> sc.guillotineContexts[k] != gc) &&
    (!started ==> Initial(gc, mc, sc, o.maxSize))
  }

  /** Every rect the chosen algorithm has packed lies in the bin; the
      guillotine and MaxRects algorithms pack no two rects that overlap. */
  lemma ReadyPacked(o: PackerOptions, gc: Guillotines.Context, mc: MaxRects.Context, sc: Skylines.Context, started: bool)
    requires Ready(o, gc, mc, sc, started)
    ensures forall i :: 0 <= i < |PackedBy(o, gc, mc, sc)| ==> Skylines.InBin(PackedBy(o, gc, mc, sc)[i], o.maxSize)
    ensures o.packingAlgorithm != SkylinePacking ==>
      forall i, j :: 0 <= i < |PackedBy(o, gc, mc, sc)| && 0 <= j < |PackedBy(o, gc, mc, sc)| && i != j ==>
        !StrictlyIntersects(PackedBy(o, gc, mc, sc)[i], PackedBy(o, gc, mc, sc)[j])
  {
    var ps := PackedBy(o, gc, mc, sc);
    if o.packingAlgorithm != SkylinePacking {
      forall i, j | 0 <= i < |ps| && 0 <= j < |ps| && i != j
        ensures !StrictlyIntersects(ps[i], ps[j])
      {
        StrictlyIntersectsIffNonDegenerate(ps[i], ps[j]);
      }
    }
  }

  /** The body of the inner loop of `internalPack` for one image: the size
      check, then `tryPack` of the padded size and the padding removed from
      the rect it returns. */
  method PlaceImage(o: PackerOptions, check: SizeCheck, gc: Guillotines.Context, mc: MaxRects.Context, sc: Skylines.Context,
                    img: PackableImage, ghost started: bool)
    returns (dropped: bool, placed: Option<Rect>)
    requires Sized(img) && o.maxSize.x > 0.0 && o.maxSize.y > 0.0
    requires Ready(o, gc, mc, sc, started)
    modifies gc, mc, sc, sc.guillotineContexts.Values
    ensures Ready(o, gc, mc, sc, started || !dropped)
    ensures forall c :: c in sc.guillotineContexts.Values ==> c in old(sc.guillotineContexts.Values) || fresh(c)
    ensures dropped <==> TooLarge(check, o, img)
    ensures dropped ==> placed.None?
    ensures placed.Some? ==> placed.value.size == img.size && WellFormed(placed.value)
    ensures placed.None? ==> PackedBy(o, gc, mc, sc) == old(PackedBy(o, gc, mc, sc))
    ensures placed.Some? ==> PackedBy(o, gc, mc, sc) == old(PackedBy(o, gc, mc, sc)) + [AddBorderExtrusionRect(o, placed.value, img)]
    ensures placed.Some? ==> Skylines.InBin(AddBorderExtrusionRect(o, placed.value, img), o.maxSize)
    ensures !dropped && !started ==> (placed.Some? <==> !TooLarge(PaddedSize, o, img))
  {
    if TooLarge(check, o, img) {
      return true, None;
    }
    dropped := false;
    var imgSize := AddBorderExtrusion(o, img.size, img);
    var packedRect := TryPackWith(o, gc, mc, sc, imgSize, !started);
    if packedRect.Some? {
      placed := Some(RemoveBorderExtrusion(o, packedRect.value, img));
      AddAfterRemove(o, packedRect.value, img);
    } else {
      placed := None;
    }
  }

  /** What a pass has established after its first `i` images; `started`
      says whether it has kept one yet. */
  ghost predicate PassSoFar(o: PackerOptions, check: SizeCheck, unpacked: seq<PackableImage>, i: nat, started: bool,
                            fates: seq<Fate>, rest: seq<PackableImage>, packedImages: map<Rect, PackableImage>)
  {
    i <= |unpacked| && |fates| == i &&
    (forall j :: 0 <= j < i ==> (fates[j].Dropped? <==> TooLarge(check, o, unpacked[j]))) &&
    (forall j :: 0 <= j < i && fates[j].Packed? ==> fates[j].rect.size == unpacked[j].size) &&
    (started <==> FirstKept(fates) < i) &&
    (started ==> (fates[FirstKept(fates)].Packed? <==> !TooLarge(PaddedSize, o, unpacked[FirstKept(fates)]))) &&
    rest == Remaining(unpacked[..i], fates) &&
    packedImages == Stored(unpacked[..i], fates)
  }

  /** One more image, with a fate that keeps the promises of the pass. */
  lemma PassStep(o: PackerOptions, check: SizeCheck, unpacked: seq<PackableImage>, i: nat, started: bool,
                 fates: seq<Fate>, rest: seq<PackableImage>, packedImages: map<Rect, PackableImage>, fate: Fate)
    requires PassSoFar(o, check, unpacked, i, started, fates, rest, packedImages) && i < |unpacked|
    requires fate.Dropped? <==> TooLarge(check, o, unpacked[i])
    requires fate.Packed? ==> fate.rect.size == unpacked[i].size
    requires !fate.Dropped? && !started ==> (fate.Packed? <==> !TooLarge(PaddedSize, o, unpacked[i]))
    ensures PassSoFar(o, check, unpacked, i + 1, started || !fate.Dropped?, fates + [fate],
                      rest + (if fate.Deferred? then [unpacked[i]] else []),
                      if fate.Packed? then packedImages[fate.rect := unpacked[i]] else packedImages)
  {
    var fates' := fates + [fate];
    assert unpacked[..i + 1][..i] == unpacked[..i] && unpacked[..i + 1][i] == unpacked[i];
    assert fates'[..i] == fates && fates'[i] == fate;
  }

  /** A pass that has been through all its images keeps its promises. */
  lemma PassDone(o: PackerOptions, check: SizeCheck, unpacked: seq<PackableImage>, started: bool,
                 fates: seq<Fate>, rest: seq<PackableImage>, packedImages: map<Rect, PackableImage>)
    requires PassSoFar(o, check, unpacked, |unpacked|, started, fates, rest, packedImages)
    ensures |fates| == |unpacked|
    ensures forall i :: 0 <= i < |unpacked| ==> (fates[i].Dropped? <==> TooLarge(check, o, unpacked[i]))
    ensures forall i :: 0 <= i < |unpacked| && fates[i].Packed? ==> fates[i].rect.size == unpacked[i].size
    ensures var f := FirstKept(fates); f < |unpacked| ==> (fates[f].Packed? <==> !TooLarge(PaddedSize, o, unpacked[f]))
    ensures rest == Remaining(unpacked, fates)
    ensures packedImages == Stored(unpacked, fates)
  {
    assert unpacked[..|unpacked|] == unpacked;
  }

  /** Each stored rect `r`, padded, is the rect at position `slot[r]` of
      `ps`, and no two stored rects share a position. */
  ghost predicate Slotted(o: PackerOptions, ps: seq<Rect>, slot: map<Rect, nat>, m: map<Rect, PackableImage>)
  {
    slot.Keys == m.Keys &&
    (forall r :: r in slot ==> WellFormed(r) && slot[r] < |ps| && ps[slot[r]] == AddBorderExtrusionRect(o, r, m[r])) &&
    (forall r, r' :: r in slot && r' in slot && r != r' ==> slot[r] != slot[r'])
  }

  /** Storing a rect whose padded rect the algorithm has just appended. */
  lemma SlotStep(o: PackerOptions, before: seq<Rect>, after: seq<Rect>, slot: map<Rect, nat>, m: map<Rect, PackableImage>,
                 placed: Rect, img: PackableImage)
    requires Slotted(o, before, slot, m)
    requires WellFormed(placed) && after == before + [AddBorderExtrusionRect(o, placed, img)]
    ensures Slotted(o, after, slot[placed := |before|], m[placed := img])
  {
  }

  /** What holds of every packed rect, and of every two of them, holds of
      the stored rects with their padding added back. */
  lemma SlottedPacked(o: PackerOptions, ps: seq<Rect>, slot: map<Rect, nat>, m: map<Rect, PackableImage>, apart: bool)
    requires Slotted(o, ps, slot, m)
    requires forall i :: 0 <= i < |ps| ==> Skylines.InBin(ps[i], o.maxSize)
    requires apart ==> forall i, j :: 0 <= i < |ps| && 0 <= j < |ps| && i != j ==> !StrictlyIntersects(ps[i], ps[j])
    ensures PaddedInBin(o, m)
    ensures apart ==> PaddedApart(o, m)
  {
    forall r | r in m
      ensures WellFormed(r) && Skylines.InBin(AddBorderExtrusionRect(o, r, m[r]), o.maxSize)
    {
      assert ps[slot[r]] == AddBorderExtrusionRect(o, r, m[r]);
    }
    if apart {
      forall r, r' | r in m && r' in m && r != r' && WellFormed(r) && WellFormed(r')
        ensures !StrictlyIntersects(AddBorderExtrusionRect(o, r, m[r]), AddBorderExtrusionRect(o, r', m[r']))
      {
        assert ps[slot[r]] == AddBorderExtrusionRect(o, r, m[r]) && ps[slot[r']] == AddBorderExtrusionRect(o, r', m[r']);
      }
    }
  }

  /**
   * One pass of the outer loop of `internalPack`: fresh contexts for a bin
   * of the maximum size, then each image in turn is left out for good when
   * the size check finds it too large, packed (its padded size goes to the
   * chosen algorithm, the padding is removed from the rect it returns, and
   * the image is stored under that rect) or kept for the next texture. The
   * images kept are what the list `unpacked` holds after the pass. The first
   * image kept meets an empty bin, so it is packed exactly when its padded
   * size fits the bin.
   */
  method PackPass(o: PackerOptions, unpacked: seq<PackableImage>, index: nat, check: SizeCheck)
    returns (texture: PackedTexture, rest: seq<PackableImage>, ghost fates: seq<Fate>)
    requires Valid(o)
    requires forall i :: 0 <= i < |unpacked| ==> Sized(unpacked[i])
    ensures |fates| == |unpacked|
    ensures forall i :: 0 <= i < |unpacked| ==> (fates[i].Dropped? <==> TooLarge(check, o, unpacked[i]))
    ensures forall i :: 0 <= i < |unpacked| && fates[i].Packed? ==> fates[i].rect.size == unpacked[i].size
    ensures var f := FirstKept(fates); f < |unpacked| ==> (fates[f].Packed? <==> !TooLarge(PaddedSize, o, unpacked[f]))
    ensures rest == Remaining(unpacked, fates)
    ensures texture == PackedTexture(index, Stored(unpacked, fates))
    ensures PaddedInBin(o, texture.packedImages)
    ensures o.packingAlgorithm != SkylinePacking ==> PaddedApart(o, texture.packedImages)
  {
    var gc := new Guillotines.Context();
    var mc := new MaxRects.Context();
    var sc := new Skylines.Context();
    gc.Initialize(o.maxSize, o.guillotineFitPolicy, o.guillotineSplitPolicy);
    mc.Initialize(o.maxSize, o.maxRectsFitPolicy);
    sc.Initialize(o.maxSize, o.wasteImprovement);
    var packedImages: map<Rect, PackableImage> := map[];
    rest := [];
    fates := [];
    ghost var started := false;
    // The position in the packed rects of the chosen algorithm of the
    // padded rect of each stored image.
    ghost var slot: map<Rect, nat> := map[];
    var i := 0;
    while i < |unpacked|
      invariant PassSoFar(o, check, unpacked, i, started, fates, rest, packedImages)
      invariant Ready(o, gc, mc, sc, started)
      invariant forall c :: c in sc.guillotineContexts.Values ==> fresh(c)
      invariant Slotted(o, PackedBy(o, gc, mc, sc), slot, packedImages)
    {
      var img := unpacked[i];
      ghost var rest0, packedImages0 := rest, packedImages;
      ghost var before := PackedBy(o, gc, mc, sc);
      var dropped, placed := PlaceImage(o, check, gc, mc, sc, img, started);
      ghost var fate := if dropped then Dropped else if placed.Some? then Packed(placed.value) else Deferred;
      if placed.Some? {
        SlotStep(o, before, PackedBy(o, gc, mc, sc), slot, packedImages, placed.value, img);
        packedImages := packedImages[placed.value := img];
        slot := slot[placed.value := |before|];
      } else if !dropped {
        rest := rest + [img];
      }
      PassStep(o, check, unpacked, i, started, fates, rest0, packedImages0, fate);
      fates := fates + [fate];
      started := started || !fate.Dropped?;
      i := i + 1;
    }
    PassDone(o, check, unpacked, started, fates, rest, packedImages);
    texture := PackedTexture(index, packedImages);
    ReadyPacked(o, gc, mc, sc, started);
    SlottedPacked(o, PackedBy(o, gc, mc, sc), slot, packedImages, o.packingAlgorithm != SkylinePacking);
  }

  // ---------------------------------------------------------------------
  // The packing loop
  // ---------------------------------------------------------------------

  /** Each stored rect, with its image's padding added back, lies in the
      bin of the maximum size. */
  predicate PaddedInBin(o: PackerOptions, m: map<Rect, PackableImage>)
  {
    forall r :: r in m ==> WellFormed(r) && Skylines.InBin(AddBorderExtrusionRect(o, r, m[r]), o.maxSize)
  }

  /** No two stored rects overlap once their images' padding is added back. */
  predicate PaddedApart(o: PackerOptions, m: map<Rect, PackableImage>)
  {
    forall r, r' :: r in m && r' in m && r != r' && WellFormed(r) && WellFormed(r') ==>
      !StrictlyIntersects(AddBorderExtrusionRect(o, r, m[r]), AddBorderExtrusionRect(o, r', m[r']))
  }

  /** A texture as the packer hands it on: it holds at least one image, and
      each image is one of `images`, stored under a rect of its own size,
      and small enough to fit the bin with its padding; with the padding
      added back, the rects lie in the bin, and the guillotine and MaxRects
      algorithms leave no two of them overlapping. */
  predicate Packs(o: PackerOptions, images: seq<PackableImage>, tex: PackedTexture)
  {
    tex.packedImages != map[] &&
    (forall r :: r in tex.packedImages ==>
      tex.packedImages[r] in images && r.size == tex.packedImages[r].size && WellFormed(r) &&
      !TooLarge(PaddedSize, o, tex.packedImages[r])) &&
    PaddedInBin(o, tex.packedImages) &&
    (o.packingAlgorithm != SkylinePacking ==> PaddedApart(o, tex.packedImages))
  }

  /** A pass that checks the padded size makes progress: it packs or drops
      at least one image, it keeps only images it was given, and the
      texture it fills, unless empty, is one the packer may hand on. */
  lemma PassProgress(o: PackerOptions, images: seq<PackableImage>, unpacked: seq<PackableImage>, fates: seq<Fate>, index: nat)
    requires unpacked != [] && |fates| == |unpacked|
    requires forall i :: 0 <= i < |unpacked| ==> unpacked[i] in images && Sized(unpacked[i])
    requires forall i :: 0 <= i < |unpacked| ==> (fates[i].Dropped? <==> TooLarge(PaddedSize, o, unpacked[i]))
    requires forall i :: 0 <= i < |unpacked| && fates[i].Packed? ==> fates[i].rect.size == unpacked[i].size
    requires var f := FirstKept(fates); f < |unpacked| ==> (fates[f].Packed? <==> !TooLarge(PaddedSize, o, unpacked[f]))
    requires PaddedInBin(o, Stored(unpacked, fates))
    requires o.packingAlgorithm != SkylinePacking ==> PaddedApart(o, Stored(unpacked, fates))
    ensures |Remaining(unpacked, fates)| < |unpacked|
    ensures var rest := Remaining(unpacked, fates);
      forall i :: 0 <= i < |rest| ==> rest[i] in images && Sized(rest[i])
    ensures Stored(unpacked, fates) != map[] ==> Packs(o, images, PackedTexture(index, Stored(unpacked, fates)))
  {
    var f := FirstKept(fates);
    assert !fates[if f < |unpacked| then f else 0].Deferred?;
    RemainingShrinks(unpacked, fates);
    RemainingFrom(unpacked, fates);
    var rest := Remaining(unpacked, fates);
    forall i | 0 <= i < |rest|
      ensures rest[i] in images && Sized(rest[i])
    {
      assert rest[i] in unpacked;
    }
    var m := Stored(unpacked, fates);
    forall r | r in m
      ensures m[r] in images && r.size == m[r].size && WellFormed(r) && !TooLarge(PaddedSize, o, m[r])
    {
      StoredPacked(unpacked, fates, r);
    }
  }

  /** Every element of a sequence is an element of any permutation of it. */
  lemma PermutationMembers(a: seq<PackableImage>, b: seq<PackableImage>)
    requires multiset(a) == multiset(b)
    ensures forall i :: 0 <= i < |a| ==> a[i] in b
  {
    forall i | 0 <= i < |a|
      ensures a[i] in b
    {
      assert a[i] in multiset(a);
    }
  }

  /**
   * `internalPack`: no images give no textures; a name seen twice is an
   * error; otherwise the images are sorted by area and packed pass by pass,
   * each pass into a fresh bin of the maximum size, one texture per pass
   * that packs something, until none is left. Images too large for the bin
   * with their padding are left out; each texture holds only images that
   * fit it, placed in the bin.
   */
  method InternalPack(o: PackerOptions, images: seq<PackableImage>) returns (res: Option<seq<PackedTexture>>)
    requires Valid(o)
    requires forall img :: img in images ==> Sized(img)
    ensures res.None? <==> !UniqueNames(images)
    ensures images == [] ==> res == Some([])
    ensures res.Some? ==> forall t :: 0 <= t < |res.value| ==> res.value[t].index == t && Packs(o, images, res.value[t])
  {
    if images == [] {
      return Some([]);
    }
    var dup := HasDuplicateName(images);
    if dup {
      return None;
    }
    var unpacked := SortImages(o, images);
    PermutationMembers(unpacked, images);
    var packed: seq<PackedTexture> := [];
    var texIndex := 0;
    while unpacked != []
      invariant texIndex == |packed|
      invariant forall i :: 0 <= i < |unpacked| ==> unpacked[i] in images && Sized(unpacked[i])
      invariant forall t :: 0 <= t < |packed| ==> packed[t].index == t && Packs(o, images, packed[t])
      decreases |unpacked|
    {
      var texture, rest, fates := PackPass(o, unpacked, texIndex, PaddedSize);
      PassProgress(o, images, unpacked, fates, texIndex);
      if texture.packedImages != map[] {
        packed := packed + [texture];
        texIndex := texIndex + 1;
      }
      unpacked := rest;
    }
    return Some(packed);
  }

  /** An image that fits the default bin on its own but not with the default
      padding of 1 pixel of border and 2 of extrusion. */
  const Tight := PackableImage(0, "tight", "tight.png", Vectors.Vec2(4096.0, 4096.0), None, None)

  /** The pass as written, which leaves out only images whose own size is
      too large: the image `Tight` is neither packed nor left out, so the
      list of images to pack comes back as it was and the outer loop never
      ends. */
  method StallsAsWritten() returns (rest: seq<PackableImage>)
    ensures rest == [Tight]
  {
    var texture;
    ghost var fates;
    texture, rest, fates := PackPass(Defaults, [Tight], 0, RawSize);
    assert !TooLarge(RawSize, Defaults, Tight) && TooLarge(PaddedSize, Defaults, Tight);
    assert FirstKept(fates) == 0;
    assert [Tight][..0] == [];
  }

  // ---------------------------------------------------------------------
  // The size of a texture's image
  // ---------------------------------------------------------------------

  /** `u` contains each padded rect of the images stored under `keys`. */
  predicate Encloses(o: PackerOptions, m: map<Rect, PackableImage>, keys: set<Rect>, u: Rect)
    requires keys <= m.Keys && forall r :: r in keys ==> WellFormed(r)
  {
    forall r :: r in keys ==> ContainsRect(u, AddBorderExtrusionRect(o, r, m[r]))
  }

  /** `u` is the union of the padded rects under `keys`: it contains them
      all, and every rect that contains them all contains `u`. */
  ghost predicate Bounds(o: PackerOptions, m: map<Rect, PackableImage>, keys: set<Rect>, u: Rect)
    requires keys <= m.Keys && forall r :: r in keys ==> WellFormed(r)
  {
    WellFormed(u) && Encloses(o, m, keys, u) && forall q :: Encloses(o, m, keys, q) ==> ContainsRect(q, u)
  }

  /** The union does not depend on the order the rects are joined in: two
      unions of the same rects are the same rect. */
  lemma BoundsUnique(o: PackerOptions, m: map<Rect, PackableImage>, keys: set<Rect>, u: Rect, v: Rect)
    requires keys <= m.Keys && forall r :: r in keys ==> WellFormed(r)
    requires Bounds(o, m, keys, u) && Bounds(o, m, keys, v)
    ensures u == v
  {
    assert ContainsRect(u, v) && ContainsRect(v, u);
    assert u.size.x == v.size.x && u.size.y == v.size.y;
  }

  /** 2 to the power `k`. */
  function Pow2(k: nat): (p: real)
    ensures p >= 1.0
  {
    if k == 0 then 1.0 else 2.0 * Pow2(k - 1)
  }

  /** `p` is the smallest power of two no less than either side of `size`. */
  ghost predicate PowerCover(p: real, size: Vectors.Vec2)
  {
    exists k: nat :: p == Pow2(k) && p >= size.x && p >= size.y && (k == 0 || Pow2(k - 1) < size.x || Pow2(k - 1) < size.y)
  }

  /**
   * `computeImageSize`: the maximum size for a fixed size; otherwise the
   * union of the texture's padded rects, its own size for the minimum size
   * and, for a power of two, the smallest square of a power of two that
   * holds it. A texture without images has no union, and the
   * unchecked `ur->size()` of the source fails on it (`None`).
   */
  method ComputeImageSize(o: PackerOptions, tx: PackedTexture) returns (size: Option<Vectors.Vec2>)
    requires forall r :: r in tx.packedImages ==> WellFormed(r)
    ensures o.sizeConstraint == Fixed ==> size == Some(o.maxSize)
    ensures o.sizeConstraint != Fixed && tx.packedImages == map[] ==> size.None?
    ensures o.sizeConstraint == Minimum && tx.packedImages != map[] ==>
      exists u :: Bounds(o, tx.packedImages, tx.packedImages.Keys, u) && size == Some(u.size)
    ensures o.sizeConstraint == PowerOf2 && tx.packedImages != map[] ==>
      exists u :: Bounds(o, tx.packedImages, tx.packedImages.Keys, u) && size.Some? &&
        size.value.x == size.value.y && PowerCover(size.value.x, u.size)
  {
    if o.sizeConstraint == Fixed {
      return Some(o.maxSize);
    }
    var m := tx.packedImages;
    var keys := m.Keys;
    var ur: Option<Rect> := None;
    ghost var done: set<Rect> := {};
    while keys != {}
      invariant keys + done == m.Keys && keys !! done
      invariant ur.None? <==> done == {}
      invariant ur.Some? ==> Bounds(o, m, done, ur.value)
      decreases keys
    {
      var r :| r in keys;
      var pr := AddBorderExtrusionRect(o, r, m[r]);
      ghost var done0 := done;
      if ur.Some? {
        UnionBounds(o, m, done0, ur.value, r);
        ur := Some(GetUnion(ur.value, pr));
      } else {
        SingleBounds(o, m, r);
        ur := Some(pr);
      }
      keys := keys - {r};
      done := done + {r};
    }
    if ur.None? {
      return None;
    }
    var u := ur.value;
    if o.sizeConstraint == Minimum {
      return Some(u.size);
    }
    var s := Vectors.One;
    ghost var k: nat := 0;
    while s.x < u.size.x || s.y < u.size.y
      invariant s.x == Pow2(k) && s.y == Pow2(k)
      invariant k == 0 || Pow2(k - 1) < u.size.x || Pow2(k - 1) < u.size.y
      decreases (Max(u.size.x, u.size.y) - s.x).Floor
    {
      s := Vectors.Scale(2.0, s);
      k := k + 1;
    }
    return Some(s);
  }

  /** One padded rect is its own union. */
  lemma SingleBounds(o: PackerOptions, m: map<Rect, PackableImage>, r: Rect)
    requires r in m && WellFormed(r)
    ensures Bounds(o, m, {r}, AddBorderExtrusionRect(o, r, m[r]))
  {
    var pr := AddBorderExtrusionRect(o, r, m[r]);
    assert ContainsRect(pr, pr);
    forall q | Encloses(o, m, {r}, q)
      ensures ContainsRect(q, pr)
    {
      assert r in {r};
    }
  }

  /** Joining one more padded rect to a union gives the union of both. */
  lemma UnionBounds(o: PackerOptions, m: map<Rect, PackableImage>, done: set<Rect>, u: Rect, r: Rect)
    requires done <= m.Keys && r in m && WellFormed(r) && forall x :: x in done ==> WellFormed(x)
    requires Bounds(o, m, done, u)
    ensures Bounds(o, m, done + {r}, GetUnion(u, AddBorderExtrusionRect(o, r, m[r])))
  {
    var pr := AddBorderExtrusionRect(o, r, m[r]);
    var v := GetUnion(u, pr);
    forall x | x in done + {r}
      ensures ContainsRect(v, AddBorderExtrusionRect(o, x, m[x]))
    {
      if x != r {
        assert ContainsRect(u, AddBorderExtrusionRect(o, x, m[x]));
      }
    }
    forall q | Encloses(o, m, done + {r}, q)
      ensures ContainsRect(q, v)
    {
      assert Encloses(o, m, done, q);
      assert ContainsRect(q, pr);
      UnionIsSmallest(u, pr, q);
    }
  }

  /** A texture of the packer without images: the pass as written keeps
      it, and its image size cannot be computed. */
  method EmptyTextureAsWritten() returns (size: Option<Vectors.Vec2>)
    ensures size.None?
  {
    var huge := PackableImage(0, "huge", "huge.png", Vectors.Vec2(5000.0, 5000.0), None, None);
    var texture, rest, fates := PackPass(Defaults, [huge], 0, RawSize);
    assert fates[0].Dropped?;
    assert [huge][..0] == [];
    assert texture.packedImages == map[];
    size := ComputeImageSize(Defaults, texture);
  }
}
