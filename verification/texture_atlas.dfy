/**
 * The texture atlas: a text description, one texture per line
 * `name:x:y:width:height`, parsed into rectangles normalised by the atlas
 * size, which a line named `@@TX_SELF` gives.
 */
module TextureAtlases {
  import opened Vectors
  import opened Rects
  import opened Options

  /** The name of the line that carries the atlas's own size. */
  const SelfName: string := "@@TX_SELF"

  /** The characters `boost::trim` removes in the classic locale. */
  predicate IsSpace(c: char) {
    c == ' ' || c == '\t' || c == '\n' || c == '\U{0B}' || c == '\U{0C}' || c == '\r'
  }

  // ---------------------------------------------------------------------
  // Splitting with `token_compress_on`
  // ---------------------------------------------------------------------

  /** `s` with every occurrence of `sep` removed. */
  function Without(s: string, sep: char): (r: string)
    ensures |r| <= |s|
    ensures sep !in r
  {
    if s == [] then [] else (if s[0] == sep then [] else [s[0]]) + Without(s[1..], sep)
  }

  /** The strings of `parts`, one after the other. */
  function Concat(parts: seq<string>): string {
    if parts == [] then [] else parts[0] + Concat(parts[1..])
  }

  lemma {:induction false} ConcatAppend(a: seq<string>, b: seq<string>)
    ensures Concat(a + b) == Concat(a) + Concat(b)
  {
    if a != [] {
      assert (a + b)[1..] == a[1..] + b;
      ConcatAppend(a[1..], b);
    } else {
      assert a + b == b;
    }
  }

  lemma {:induction false} WithoutAppend(s: string, t: string, sep: char)
    ensures Without(s + t, sep) == Without(s, sep) + Without(t, sep)
  {
    if s != [] {
      assert (s + t)[1..] == s[1..] + t;
      WithoutAppend(s[1..], t, sep);
    } else {
      assert s + t == t;
    }
  }

  /** The index of the first `sep` in `s`. */
  function FirstIndex(s: string, sep: char): (i: nat)
    requires sep in s
    ensures i < |s| && s[i] == sep && sep !in s[..i]
  {
    if s[0] == sep then 0 else FirstIndex(s[1..], sep) + 1
  }

  /** `t` without its leading run of `sep`. */
  function DropRun(t: string, sep: char): (r: string)
    ensures |r| <= |t|
    ensures t != [] && t[0] == sep ==> |r| < |t|
  {
    if t != [] && t[0] == sep then DropRun(t[1..], sep) else t
  }

  /** What is left after the run does not start with `sep`. */
  lemma {:induction false} DropRunEnds(t: string, sep: char)
    ensures DropRun(t, sep) == [] || DropRun(t, sep)[0] != sep
  {
    if t != [] && t[0] == sep {
      DropRunEnds(t[1..], sep);
    }
  }

  /**
   * `boost::split(parts, s, is_any_of({sep}), token_compress_on)`: the pieces
   * between runs of `sep`; a run counts as one separator, but a leading or
   * trailing run still yields an empty first or last piece.
   */
  function Split(s: string, sep: char): (parts: seq<string>)
    ensures |parts| >= 1
    decreases |s|
  {
    if sep !in s then [s]
    else
      var i := FirstIndex(s, sep);
      [s[..i]] + Split(DropRun(s[i..], sep), sep)
  }

  /** No piece holds a separator. */
  lemma {:induction false} SplitSeparatorFree(s: string, sep: char)
    ensures forall i :: 0 <= i < |Split(s, sep)| ==> sep !in Split(s, sep)[i]
    decreases |s|
  {
    if sep in s {
      var i := FirstIndex(s, sep);
      var rest := DropRun(s[i..], sep);
      SplitSeparatorFree(rest, sep);
      assert Split(s, sep) == [s[..i]] + Split(rest, sep);
    }
  }

  /** Only the first and the last piece can be empty, and the first is not when `s` starts with a non-separator. */
  lemma {:induction false} SplitInnerNonEmpty(s: string, sep: char)
    ensures forall i :: 0 < i < |Split(s, sep)| - 1 ==> Split(s, sep)[i] != []
    ensures s != [] && s[0] != sep ==> Split(s, sep)[0] != []
    decreases |s|
  {
    if sep in s {
      var i := FirstIndex(s, sep);
      var rest := DropRun(s[i..], sep);
      SplitInnerNonEmpty(rest, sep);
      DropRunEnds(s[i..], sep);
      var parts := Split(s, sep);
      assert parts == [s[..i]] + Split(rest, sep);
      assert forall j :: 0 < j < |parts| ==> parts[j] == Split(rest, sep)[j - 1];
    }
  }

  /** Together the pieces are `s` without its separators. */
  lemma {:induction false} SplitConcat(s: string, sep: char)
    ensures Concat(Split(s, sep)) == Without(s, sep)
    decreases |s|
  {
    if sep !in s {
      assert Split(s, sep) == [s];
      WithoutNone(s, sep);
      ConcatSingle(s);
    } else {
      var i := FirstIndex(s, sep);
      var rest := DropRun(s[i..], sep);
      SplitConcat(rest, sep);
      assert Split(s, sep) == [s[..i]] + Split(rest, sep);
      SplitStep(s, sep, i, Split(rest, sep));
    }
  }

  lemma {:induction false} WithoutNone(s: string, sep: char)
    requires sep !in s
    ensures Without(s, sep) == s
  {
    if s != [] {
      WithoutNone(s[1..], sep);
    }
  }

  lemma {:induction false} DropRunWithout(t: string, sep: char)
    ensures Without(DropRun(t, sep), sep) == Without(t, sep)
  {
    if t != [] && t[0] == sep {
      DropRunWithout(t[1..], sep);
      assert Without(t, sep) == [] + Without(t[1..], sep);
    }
  }

  lemma ConcatSingle(p: string)
    ensures Concat([p]) == p
  {
    assert [p][1..] == [];
  }

  /** The concatenation facts behind one step of `Split`: `s` is `pre`, then a separator run, then the rest. */
  lemma {:induction false} SplitStep(s: string, sep: char, i: nat, tail: seq<string>)
    requires i <= |s| && sep !in s[..i]
    requires Concat(tail) == Without(DropRun(s[i..], sep), sep)
    ensures Concat([s[..i]] + tail) == Without(s, sep)
  {
    var pre, t := s[..i], s[i..];
    assert s == pre + t;
    DropRunWithout(t, sep);
    WithoutAppend(pre, t, sep);
    WithoutNone(pre, sep);
    ConcatAppend([pre], tail);
    ConcatSingle(pre);
  }

  // ---------------------------------------------------------------------
  // Trimming
  // ---------------------------------------------------------------------

  /** `s` without its leading white space. */
  function TrimStart(s: string): (r: string)
    ensures |r| <= |s|
  {
    if s != [] && IsSpace(s[0]) then TrimStart(s[1..]) else s
  }

  /** `s` without its trailing white space. */
  function TrimEnd(s: string): (r: string)
    ensures |r| <= |s|
  {
    if s != [] && IsSpace(s[|s| - 1]) then TrimEnd(s[..|s| - 1]) else s
  }

  /** `boost::trim`: white space removed from both ends. */
  function Trim(s: string): (r: string)
    ensures |r| <= |s|
  {
    TrimEnd(TrimStart(s))
  }

  /** `TrimStart` removes a prefix of white space, and what is left does not start with white space. */
  lemma {:induction false} TrimStartDrops(s: string)
    ensures var r := TrimStart(s);
      r == s[|s| - |r|..] && (r == [] || !IsSpace(r[0])) &&
      forall k :: 0 <= k < |s| - |r| ==> IsSpace(s[k])
  {
    if s != [] && IsSpace(s[0]) {
      TrimStartDrops(s[1..]);
    }
  }

  /** `TrimEnd` removes a suffix of white space, and what is left does not end with white space. */
  lemma {:induction false} TrimEndDrops(s: string)
    ensures var r := TrimEnd(s);
      r == s[..|r|] && (r == [] || !IsSpace(r[|r| - 1])) &&
      forall k :: |r| <= k < |s| ==> IsSpace(s[k])
  {
    if s != [] && IsSpace(s[|s| - 1]) {
      TrimEndDrops(s[..|s| - 1]);
    }
  }

  /** The trimmed string is a slice of `s` with white space only around it, and neither starts nor ends with white space. */
  lemma TrimDrops(s: string)
    ensures var r, i := Trim(s), |s| - |TrimStart(s)|;
      i + |r| <= |s| && r == s[i..i + |r|] &&
      (forall k :: 0 <= k < i ==> IsSpace(s[k])) && (forall k :: i + |r| <= k < |s| ==> IsSpace(s[k])) &&
      (r == [] || (!IsSpace(r[0]) && !IsSpace(r[|r| - 1])))
  {
    var t := TrimStart(s);
    TrimStartDrops(s);
    TrimEndDrops(t);
    var r := TrimEnd(t);
    var i := |s| - |t|;
    assert r == s[i..i + |r|];
    forall k | i + |r| <= k < |s|
      ensures IsSpace(s[k])
    {
      assert s[k] == t[k - i];
    }
    if r != [] {
      assert r[0] == t[0];
      assert r[|r| - 1] == t[|r| - 1];
    }
  }

  /** A string that neither starts nor ends with white space is its own trim. */
  lemma TrimKeepsTrimmed(s: string)
    requires s == [] || (!IsSpace(s[0]) && !IsSpace(s[|s| - 1]))
    ensures Trim(s) == s
  {
    assert TrimStart(s) == s;
  }

  /** Trimming twice is trimming once. */
  lemma TrimIdempotent(s: string)
    ensures Trim(Trim(s)) == Trim(s)
  {
    TrimDrops(s);
    TrimKeepsTrimmed(Trim(s));
  }

  /** Every string of `values` trimmed, in place. */
  function Trimmed(values: seq<string>): (t: seq<string>)
    ensures |t| == |values|
    ensures forall i :: 0 <= i < |t| ==> t[i] == Trim(values[i])
  {
    if values == [] then [] else [Trim(values[0])] + Trimmed(values[1..])
  }

  /** The loop that trims every field of a line in place. */
  method TrimAll(values: seq<string>) returns (t: seq<string>)
    ensures t == Trimmed(values)
  {
    t := values;
    for i := 0 to |t|
      invariant |t| == |values|
      invariant forall k :: 0 <= k < i ==> t[k] == Trim(values[k])
      invariant forall k :: i <= k < |t| ==> t[k] == values[k]
    {
      t := t[i := Trim(t[i])];
    }
  }

  // ---------------------------------------------------------------------
  // Parsing
  // ---------------------------------------------------------------------

  /**
   * Why a parse stops. `std::stof` throws when a field is not a number; the
   * two other kinds stand for the non-finite or negative sizes that the
   * source computes when it divides by an atlas size of zero or of the wrong
   * sign, and then hands to `Rect`'s asserting constructor.
   */
  datatype AtlasError = InvalidNumber | ZeroAtlasSize | NegativeSize

  /** The state of the parse loop: the map built so far and the atlas size `w`, `h`. */
  datatype Scan = Scan(textures: map<string, Rect>, width: real, height: real)

  datatype Outcome = Done(scan: Scan) | Failed(error: AtlasError)

  /** Before the first line: an empty map and an atlas size of zero. */
  const Start := Scan(map[], 0.0, 0.0)

  /** Inserting `r` under `name` unless the name is already there (`unordered_map::insert`). */
  function Insert(textures: map<string, Rect>, name: string, r: Rect): (m: map<string, Rect>)
    ensures m.Keys == textures.Keys + {name}
    ensures forall k :: k in textures ==> m[k] == textures[k]
    ensures name !in textures ==> m[name] == r
  {
    if name in textures then textures else textures[name := r]
  }

  /** The rectangle `createFromString` stores for a texture at `x`, `y` of size `width` by `height`. */
  function EntryRect(sc: Scan, x: real, y: real, width: real, height: real): Rect
    requires sc.width != 0.0 && sc.height != 0.0
    requires width / sc.width >= 0.0 && height / sc.height >= 0.0
  {
    var centerX, centerY := x + width / 2.0, y + height / 2.0;
    FromCenterSize(centerX / sc.width, centerY / sc.height, width / sc.width, height / sc.height)
  }

  /** A texture line once its numbers are read: a rectangle normalised by the atlas size, inserted unless present. */
  function Place(sc: Scan, name: string, x: Option<real>, y: Option<real>, width: real, height: real): Outcome {
    if x.None? || y.None? then Failed(InvalidNumber)
    else if sc.width == 0.0 || sc.height == 0.0 then Failed(ZeroAtlasSize)
    else if width / sc.width < 0.0 || height / sc.height < 0.0 then Failed(NegativeSize)
    else Done(sc.(textures := Insert(sc.textures, name, EntryRect(sc, x.value, y.value, width, height))))
  }

  /** A line of five trimmed fields `name`, `x`, `y`, `width`, `height`. */
  function Line(sc: Scan, values: seq<string>, stof: string -> Option<real>): Outcome
    requires |values| == 5
  {
    var width, height := stof(values[3]), stof(values[4]);
    if width.None? || height.None? then Failed(InvalidNumber)
    else if values[0] == SelfName then Done(sc.(width := width.value, height := height.value))
    else Place(sc, values[0], stof(values[1]), stof(values[2]), width.value, height.value)
  }

  /** One iteration of the parse loop, on the line `line`. */
  function Step(sc: Scan, line: string, stof: string -> Option<real>): Outcome {
    var fields := Split(line, ':');
    if |fields| != 5 then Done(sc) else Line(sc, Trimmed(fields), stof)
  }

  /** The parse loop over `lines`, from state `sc`; the first failure ends it. */
  function Fold(sc: Scan, lines: seq<string>, stof: string -> Option<real>): Outcome
    decreases |lines|
  {
    if lines == [] then Done(sc)
    else match Step(sc, lines[0], stof)
      case Failed(e) => Failed(e)
      case Done(next) => Fold(next, lines[1..], stof)
  }

  /** What `createFromString` returns for the text `atlas`, with `stof` as the number parser. */
  function Parse(atlas: string, stof: string -> Option<real>): Option<map<string, Rect>> {
    match Fold(Start, Split(atlas, '\n'), stof)
    case Done(sc) => Some(sc.textures)
    case Failed(_) => None
  }

  /**
   * `createFromString`: splits the text into lines and fills the map line by
   * line; `None` when `stof` throws or a rectangle cannot be built.
   */
  method CreateFromString(atlas: string, stof: string -> Option<real>) returns (r: Option<map<string, Rect>>)
    ensures r == Parse(atlas, stof)
  {
    var textures: map<string, Rect> := map[];
    var w, h := 0.0, 0.0;
    var lines := Split(atlas, '\n');
    for i := 0 to |lines|
      invariant Fold(Start, lines, stof) == Fold(Scan(textures, w, h), lines[i..], stof)
    {
      assert lines[i..][1..] == lines[i + 1..];
      var o := ParseLine(Scan(textures, w, h), lines[i], stof);
      if o.Failed? {
        return None;
      }
      textures, w, h := o.scan.textures, o.scan.width, o.scan.height;
    }
    r := Some(textures);
  }

  /** The body of the parse loop: one line read into the map and the atlas size. */
  method ParseLine(sc: Scan, l: string, stof: string -> Option<real>) returns (o: Outcome)
    ensures o == Step(sc, l, stof)
  {
    var values := Split(l, ':');
    if |values| != 5 {
      return Done(sc);
    }
    values := TrimAll(values);
    var width, height := stof(values[3]), stof(values[4]);
    if width.None? || height.None? {
      return Failed(InvalidNumber);
    }
    if values[0] == SelfName {
      return Done(sc.(width := width.value, height := height.value));
    }
    var x, y := stof(values[1]), stof(values[2]);
    if x.None? || y.None? {
      return Failed(InvalidNumber);
    }
    var w, h := sc.width, sc.height;
    if w == 0.0 || h == 0.0 {
      return Failed(ZeroAtlasSize);
    }
    if width.value / w < 0.0 || height.value / h < 0.0 {
      return Failed(NegativeSize);
    }
    var rect := EntryRect(sc, x.value, y.value, width.value, height.value);
    o := Done(sc.(textures := Insert(sc.textures, values[0], rect)));
    assert o == Place(sc, values[0], x, y, width.value, height.value);
  }

  // ---------------------------------------------------------------------
  // Properties of the parse
  // ---------------------------------------------------------------------

  /** A line that does not split on ':' into exactly five fields leaves the state as it is. */
  lemma StepSkips(sc: Scan, line: string, stof: string -> Option<real>)
    requires |Split(line, ':')| != 5
    ensures Step(sc, line, stof) == Done(sc)
  {
  }

  /** Such a line changes nothing, wherever it stands among the lines. */
  lemma {:induction false} MalformedLineSkipped(sc: Scan, before: seq<string>, line: string, after: seq<string>, stof: string -> Option<real>)
    requires |Split(line, ':')| != 5
    ensures Fold(sc, before + [line] + after, stof) == Fold(sc, before + after, stof)
    decreases |before|
  {
    var all, rest := before + [line] + after, before + after;
    if before == [] {
      assert all == [line] + after && all[1..] == after && rest == after;
      StepSkips(sc, line, stof);
    } else {
      assert all[1..] == before[1..] + [line] + after;
      assert rest[1..] == before[1..] + after;
      assert all[0] == before[0] == rest[0];
      match Step(sc, before[0], stof)
      case Failed(_) =>
      case Done(next) => MalformedLineSkipped(next, before[1..], line, after, stof);
    }
  }

  /** The `@@TX_SELF` line sets the atlas size and stores nothing. */
  lemma SelfLineSetsSize(sc: Scan, line: string, stof: string -> Option<real>)
    requires |Split(line, ':')| == 5
    requires Trim(Split(line, ':')[0]) == SelfName
    ensures var f := Trimmed(Split(line, ':'));
      Step(sc, line, stof) ==
        if stof(f[3]).Some? && stof(f[4]).Some? then Done(Scan(sc.textures, stof(f[3]).value, stof(f[4]).value))
        else Failed(InvalidNumber)
  {
    var f := Trimmed(Split(line, ':'));
    assert f[0] == SelfName;
    assert Step(sc, line, stof) == Line(sc, f, stof);
  }

  /** The rectangle of a new texture line: centre `((x + w/2) / W, (y + h/2) / H)`, size `(w / W, h / H)`. */
  lemma EntryIsNormalized(sc: Scan, line: string, stof: string -> Option<real>, x: real, y: real, width: real, height: real)
    requires |Split(line, ':')| == 5
    requires var f := Trimmed(Split(line, ':'));
      f[0] != SelfName && f[0] !in sc.textures &&
      stof(f[1]) == Some(x) && stof(f[2]) == Some(y) && stof(f[3]) == Some(width) && stof(f[4]) == Some(height)
    requires Step(sc, line, stof).Done?
    ensures var m := Step(sc, line, stof).scan.textures;
      var name := Trim(Split(line, ':')[0]);
      name in m &&
      m[name].center == Vec2((x + width / 2.0) / sc.width, (y + height / 2.0) / sc.height) &&
      m[name].size == Vec2(width / sc.width, height / sc.height)
  {
    var f := Trimmed(Split(line, ':'));
    var o := Place(sc, f[0], Some(x), Some(y), width, height);
    assert Step(sc, line, stof) == Line(sc, f, stof) == o;
    assert o.scan.textures[f[0]] == EntryRect(sc, x, y, width, height);
  }

  /** The trimmed name of a five-field line. */
  function LineName(line: string): Option<string> {
    var f := Split(line, ':');
    if |f| == 5 then Some(Trim(f[0])) else None
  }

  /** One line keeps every texture already stored and adds at most the one it names, never `@@TX_SELF`. */
  lemma StepKeeps(sc: Scan, line: string, stof: string -> Option<real>)
    requires Step(sc, line, stof).Done?
    ensures var m := Step(sc, line, stof).scan.textures;
      (forall k :: k in sc.textures ==> k in m && m[k] == sc.textures[k]) &&
      (forall k :: k in m && k !in sc.textures ==> LineName(line) == Some(k) && k != SelfName)
  {
    var f := Split(line, ':');
    if |f| == 5 {
      var v := Trimmed(f);
      assert v[0] == Trim(f[0]);
      assert Step(sc, line, stof) == Line(sc, v, stof);
    }
  }

  /** A texture already in the map keeps its rectangle to the end: for duplicate names the first line wins. */
  lemma {:induction false} FirstEntryWins(sc: Scan, lines: seq<string>, stof: string -> Option<real>)
    requires Fold(sc, lines, stof).Done?
    ensures var m := Fold(sc, lines, stof).scan.textures;
      forall k :: k in sc.textures ==> k in m && m[k] == sc.textures[k]
    decreases |lines|
  {
    if lines != [] {
      StepKeeps(sc, lines[0], stof);
      var next := Step(sc, lines[0], stof).scan;
      FirstEntryWins(next, lines[1..], stof);
    }
  }

  /** Every stored texture was stored before or comes from a five-field line of its name, and is not `@@TX_SELF`. */
  lemma {:induction false} StoredNamesFromLines(sc: Scan, lines: seq<string>, stof: string -> Option<real>)
    requires Fold(sc, lines, stof).Done?
    ensures var m := Fold(sc, lines, stof).scan.textures;
      forall k :: k in m && k !in sc.textures ==> k != SelfName && exists j :: 0 <= j < |lines| && LineName(lines[j]) == Some(k)
    decreases |lines|
  {
    if lines != [] {
      StepKeeps(sc, lines[0], stof);
      var next := Step(sc, lines[0], stof).scan;
      StoredNamesFromLines(next, lines[1..], stof);
      var m := Fold(sc, lines, stof).scan.textures;
      forall k | k in m && k !in sc.textures
        ensures k != SelfName && exists j :: 0 <= j < |lines| && LineName(lines[j]) == Some(k)
      {
        if k in next.textures {
          assert LineName(lines[0]) == Some(k);
        } else {
          var j :| 0 <= j < |lines[1..]| && LineName(lines[1..][j]) == Some(k);
          assert lines[1..][j] == lines[j + 1];
        }
      }
    }
  }

  /** A parsed atlas never holds `@@TX_SELF`. */
  lemma SelfNeverStored(atlas: string, stof: string -> Option<real>)
    requires Parse(atlas, stof).Some?
    ensures SelfName !in Parse(atlas, stof).value
  {
    StoredNamesFromLines(Start, Split(atlas, '\n'), stof);
  }

  // ---------------------------------------------------------------------
  // The atlas
  // ---------------------------------------------------------------------

  /** `TextureAtlas`: the constant map built by `createFromString`. */
  datatype TextureAtlas = TextureAtlas(textures: map<string, Rect>)

  /** `operator[]` through `unordered_map::at`: `None` where `at` throws. */
  function Lookup(atlas: TextureAtlas, name: string): (r: Option<Rect>)
    ensures r.Some? <==> name in atlas.textures
    ensures r.Some? ==> r.value == atlas.textures[name]
  {
    if name in atlas.textures then Some(atlas.textures[name]) else None
  }

  /** `textureCount`: the size of the map. */
  function TextureCount(atlas: TextureAtlas): nat {
    |atlas.textures|
  }

  /** `allTextures`: every name once, in the map's (unspecified) iteration order. */
  method AllTextures(atlas: TextureAtlas) returns (names: seq<string>)
    ensures |names| == TextureCount(atlas)
    ensures forall i, j :: 0 <= i < j < |names| ==> names[i] != names[j]
    ensures forall k :: k in names <==> k in atlas.textures
  {
    names := [];
    var left := atlas.textures.Keys;
    while left != {}
      invariant left <= atlas.textures.Keys
      invariant forall k :: k in names <==> k in atlas.textures && k !in left
      invariant |names| + |left| == |atlas.textures.Keys|
      invariant forall i, j :: 0 <= i < j < |names| ==> names[i] != names[j]
      decreases |left|
    {
      var k :| k in left;
      names := names + [k];
      left := left - {k};
    }
  }
}
