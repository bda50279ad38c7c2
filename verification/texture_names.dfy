/**
 * How the Windows delegate of the texture packer reads an image's file
 * name: the name of the texture is the file name without its extension
 * and without the parts `-eN` and `-bN`, which set the image's extrusion
 * and border instead.
 */
module TextureNames {
  import opened Options
  import Strings
  import TextureAtlases
  import Packers

  // ---------------------------------------------------------------------
  // The parts of a file name
  // ---------------------------------------------------------------------

  /** The last component of a path: `boost::split` at every '\\', then the
      last piece. */
  function FileName(path: string): string
  {
    var components := Strings.SplitEach(path, '\\');
    components[|components| - 1]
  }

  /** The file name is what follows the last '\\' of the path. */
  lemma {:induction false} FileNameIsLast(path: string)
    ensures var f := FileName(path);
      '\\' !in f && |f| <= |path| && path[|path| - |f|..] == f &&
      (|f| < |path| ==> path[|path| - |f| - 1] == '\\')
    decreases |path|
  {
    if '\\' in path {
      var i := TextureAtlases.FirstIndex(path, '\\');
      var rest := path[i + 1..];
      FileNameIsLast(rest);
      FileNameAfterFirst(path, i);
      SuffixOfRest(path, i + 1, |FileName(rest)|);
    }
  }

  /** The file name of a path is that of what follows its first '\\'. */
  lemma FileNameAfterFirst(path: string, i: nat)
    requires '\\' in path && i == TextureAtlases.FirstIndex(path, '\\')
    ensures FileName(path) == FileName(path[i + 1..])
  {
    var parts := Strings.SplitEach(path, '\\');
    assert parts == [path[..i]] + Strings.SplitEach(path[i + 1..], '\\');
  }

  /** A suffix of what follows position `j` is a suffix of the whole, and
      the character before it is either in that rest or at `j - 1`. */
  lemma SuffixOfRest(path: string, j: nat, m: nat)
    requires 0 < j <= |path| && m <= |path| - j && path[j - 1] == '\\'
    requires var rest := path[j..]; m < |rest| ==> rest[|rest| - m - 1] == '\\'
    ensures path[|path| - m..] == path[j..][|path| - j - m..]
    ensures m < |path| ==> path[|path| - m - 1] == '\\'
  {
  }

  /** The pieces of the file name between runs of '.'; the last is the extension. */
  function Parts(path: string): (parts: seq<string>)
    ensures |parts| >= 1
  {
    TextureAtlases.Split(FileName(path), '.')
  }

  /** A part that gives an option instead of a piece of the name. */
  predicate IsOption(part: string)
  {
    Strings.StartsWith(part, "-e") || Strings.StartsWith(part, "-b")
  }

  /** The parts of `parts` that make up a name, in their order: the
      non-empty parts that are not options. */
  function Kept(parts: seq<string>): seq<string>
  {
    if parts == [] then []
    else
      var n := |parts| - 1;
      var p := parts[n];
      Kept(parts[..n]) + (if p != [] && !IsOption(p) then [p] else [])
  }

  /** The kept parts are exactly the non-empty parts that are no options. */
  lemma {:induction false} KeptParts(parts: seq<string>)
    ensures var k := Kept(parts);
      (forall p :: p in k <==> p in parts && p != [] && !IsOption(p)) &&
      (forall i :: 0 <= i < |k| ==> k[i] != [] && !IsOption(k[i]))
  {
    if parts != [] {
      var n := |parts| - 1;
      assert parts == parts[..n] + [parts[n]];
      KeptParts(parts[..n]);
    }
  }

  /** The parts of the file name that make up the texture's name. */
  function NameParts(path: string): seq<string>
  {
    var parts := Parts(path);
    Kept(parts[..|parts| - 1])
  }

  // ---------------------------------------------------------------------
  // The texture's name
  // ---------------------------------------------------------------------

  /** Joining one more piece to a non-empty list adds a separator and the piece. */
  lemma {:induction false} JoinAppend(parts: seq<string>, p: string, sep: char)
    requires parts != []
    ensures Strings.Join(parts + [p], sep) == Strings.Join(parts, sep) + [sep] + p
    decreases |parts|
  {
    if |parts| > 1 {
      assert (parts + [p])[1..] == parts[1..] + [p];
      JoinAppend(parts[1..], p, sep);
    } else {
      assert (parts + [p])[1..] == [p];
    }
  }

  /** Non-empty pieces join to a non-empty string. */
  lemma JoinNonEmpty(parts: seq<string>, sep: char)
    requires parts != [] && parts[0] != []
    ensures Strings.Join(parts, sep) != []
  {
  }

  /** One more part: it is kept when it is non-empty and no option. */
  lemma KeptStep(parts: seq<string>, i: nat)
    requires i < |parts|
    ensures Kept(parts[..i + 1]) == Kept(parts[..i]) + (if parts[i] != [] && !IsOption(parts[i]) then [parts[i]] else [])
  {
    assert parts[..i + 1][..i] == parts[..i];
  }

  /** Appending a piece to the name adds a '.' first only when the name has begun. */
  lemma JoinStep(before: seq<string>, p: string)
    requires forall i :: 0 <= i < |before| ==> before[i] != []
    ensures var r := Strings.Join(before, '.');
      Strings.Join(before + [p], '.') == (if r != "" then r + "." else r) + p
  {
    if before != [] {
      JoinAppend(before, p, '.');
      JoinNonEmpty(before, '.');
    } else {
      assert before + [p] == [p];
    }
  }

  /**
   * `getTextureName(path)`: the parts of the file name before the
   * extension, without the option parts, joined with '.'. A '.' goes in
   * only once the name has begun, so the empty part of a leading '.' adds
   * nothing.
   */
  method GetTextureName(path: string) returns (result: string)
    ensures result == Strings.Join(NameParts(path), '.')
  {
    var parts := Parts(path);
    TextureAtlases.SplitInnerNonEmpty(FileName(path), '.');
    result := "";
    var i := 0;
    while i < |parts|
      invariant i <= |parts|
      invariant i < |parts| ==> result == Strings.Join(Kept(parts[..i]), '.')
      invariant i == |parts| ==> result == Strings.Join(Kept(parts[..|parts| - 1]), '.')
    {
      if i == |parts| - 1 {
        i := i + 1;
        continue;
      }
      var p := parts[i];
      KeptStep(parts, i);
      ghost var before := Kept(parts[..i]);
      if !Strings.StartsWith(p, "-e") && !Strings.StartsWith(p, "-b") {
        if p == [] {
          assert i == 0 && parts[..i] == [] && before == [];
        } else {
          KeptParts(parts[..i]);
          JoinStep(before, p);
        }
        if result != "" {
          result := result + ".";
        }
        result := result + p;
        assert result == Strings.Join(Kept(parts[..i + 1]), '.');
      } else {
        assert Kept(parts[..i + 1]) == before;
      }
      i := i + 1;
    }
  }

  /** Pieces without the separator, none empty, split back (with runs of
      separators compressed) into the same pieces. */
  lemma {:induction false} SplitJoin(parts: seq<string>, sep: char)
    requires parts != []
    requires forall i :: 0 <= i < |parts| ==> parts[i] != [] && sep !in parts[i]
    ensures TextureAtlases.Split(Strings.Join(parts, sep), sep) == parts
    decreases |parts|
  {
    if |parts| > 1 {
      var head, tail := parts[0], Strings.Join(parts[1..], sep);
      var s := head + [sep] + tail;
      assert Strings.Join(parts, sep) == s;
      var i := TextureAtlases.FirstIndex(s, sep);
      assert s[|head|] == sep;
      assert i == |head|;
      assert s[..i] == head;
      assert s[i..] == [sep] + tail;
      JoinNonEmpty(parts[1..], sep);
      assert tail[0] == parts[1][0];
      assert TextureAtlases.DropRun(s[i..], sep) == tail by {
        assert s[i..][1..] == tail;
      }
      SplitJoin(parts[1..], sep);
    }
  }

  /** A texture's name splits at its '.' into exactly the parts it was made
      of, so no option part and no extension is left in it. */
  lemma NameSplitsIntoParts(path: string)
    requires NameParts(path) != []
    ensures TextureAtlases.Split(Strings.Join(NameParts(path), '.'), '.') == NameParts(path)
  {
    var parts := Parts(path);
    TextureAtlases.SplitSeparatorFree(FileName(path), '.');
    var k := NameParts(path);
    KeptParts(parts[..|parts| - 1]);
    forall i | 0 <= i < |k|
      ensures k[i] != [] && '.' !in k[i]
    {
      assert k[i] in parts[..|parts| - 1];
    }
    SplitJoin(k, '.');
  }

  // ---------------------------------------------------------------------
  // The options in a file name
  // ---------------------------------------------------------------------

  /** The number after the two characters of an option part, when
      `std::stoi` reads one and it is not negative. */
  function OptionValue(part: string): (v: Option<nat>)
    requires |part| >= 2
    ensures v.Some? ==> v.value <= Strings.IntMax
  {
    var n := Strings.Stoi(part[2..]);
    if n.Some? && n.value >= 0 then Some(n.value as nat) else None
  }

  /** The value the last part starting with `prefix` gives, among those
      whose number reads; `None` when there is none. */
  function LastValue(parts: seq<string>, prefix: string): Option<nat>
    requires |prefix| == 2
  {
    if parts == [] then None
    else
      var n := |parts| - 1;
      var p := parts[n];
      var v := if Strings.StartsWith(p, prefix) then OptionValue(p) else None;
      if v.Some? then v else LastValue(parts[..n], prefix)
  }

  /** A value when there is one, the old setting otherwise. */
  function Override(v: Option<nat>, current: Option<nat>): Option<nat>
  {
    if v.Some? then v else current
  }

  /**
   * `setTextureOptions(path, img)`: each part `-eN` sets the extrusion and
   * each part `-bN` the border to N, when N reads as a number that is not
   * negative; a part whose number does not read changes nothing.
   */
  method SetTextureOptions(path: string, img: Packers.PackableImage) returns (r: Packers.PackableImage)
    ensures var parts := Parts(path);
      r == img.(extrusion := Override(LastValue(parts, "-e"), img.extrusion),
                border := Override(LastValue(parts, "-b"), img.border))
  {
    var parts := Parts(path);
    r := img;
    var i := 0;
    while i < |parts|
      invariant i <= |parts|
      invariant r == img.(extrusion := Override(LastValue(parts[..i], "-e"), img.extrusion),
                          border := Override(LastValue(parts[..i], "-b"), img.border))
    {
      var p := parts[i];
      assert parts[..i + 1][..i] == parts[..i] && parts[..i + 1][i] == p;
      if Strings.StartsWith(p, "-e") {
        var n := Strings.Stoi(p[2..]);
        if n.Some? && n.value >= 0 {
          r := r.(extrusion := Some(n.value as nat));
        }
      } else if Strings.StartsWith(p, "-b") {
        var n := Strings.Stoi(p[2..]);
        if n.Some? && n.value >= 0 {
          r := r.(border := Some(n.value as nat));
        }
      }
      i := i + 1;
    }
    assert parts[..|parts|] == parts;
  }

  /** A later option part overrides an earlier one; where the later parts
      give no value, the earlier ones stand. */
  lemma {:induction false} LaterOverrides(earlier: seq<string>, later: seq<string>, prefix: string)
    requires |prefix| == 2
    ensures LastValue(earlier + later, prefix) == Override(LastValue(later, prefix), LastValue(earlier, prefix))
    decreases |later|
  {
    if later == [] {
      assert earlier + later == earlier;
    } else {
      var n := |later| - 1;
      assert (earlier + later)[..|earlier| + n] == earlier + later[..n];
      LaterOverrides(earlier, later[..n], prefix);
    }
  }

  /** A part that gives a number, written the way `std::to_string` writes
      it, sets the option to that number. */
  lemma OptionPartSets(parts: seq<string>, prefix: string, n: nat)
    requires |prefix| == 2 && n <= Strings.IntMax
    ensures LastValue(parts + [prefix + Strings.Decimal(n)], prefix) == Some(n)
  {
    var p := prefix + Strings.Decimal(n);
    assert p[2..] == Strings.Decimal(n);
    assert p[..2] == prefix;
    Strings.StoiDecimal(n);
    assert (parts + [p])[..|parts|] == parts;
  }

  /** A part whose number does not read leaves the option as it was. */
  lemma UnreadablePartIgnored(parts: seq<string>, prefix: string, p: string)
    requires |prefix| == 2 && |p| >= 2
    requires Strings.Stoi(p[2..]).None?
    ensures LastValue(parts + [p], prefix) == LastValue(parts, prefix)
  {
    assert (parts + [p])[..|parts|] == parts;
  }
}
