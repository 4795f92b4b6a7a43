/**
 * Where the action-file converter puts its output. A path is the list of its
 * components (Windows paths, separated by `\`); the `PathBuf` operations the
 * converter uses are functions on that list. Components are kept as written:
 * `/`, which Windows also takes as a separator, is an ordinary byte here, and
 * `.` components and repeated separators are not normalised away.
 *
 * The output directory is the output base, less its last component when that
 * component has an extension, followed by the part of the input's directory
 * that begins at `mapdata\resource\prop`, or else at `resource` unless the
 * latter begins `resource\prop`. The output file is the input's file name in
 * that directory, with the extension `act`.
 */
module ActPath {
  import opened Wrappers
  import opened Bytes
  import opened Text

  type Path = seq<Text>

  const DOT: byte := 46
  const ACT: Text := Ascii("act")
  const MAPDATA_PROP: Text := Ascii("mapdata\\resource\\prop")
  const RESOURCE: Text := Ascii("resource")
  const RESOURCE_PROP: Text := Ascii("resource\\prop")

  // ---------------------------------------------------------------------------
  // File names and `PathBuf`

  /** The position of the last `b` in `s`. */
  function LastIndex(s: Text, b: byte): (r: Option<nat>)
    ensures r.Some? ==> r.value < |s| && s[r.value] == b && b !in s[r.value + 1..]
    ensures r.None? ==> b !in s
    decreases |s|
  {
    if s == [] then None
    else if s[|s| - 1] == b then Some(|s| - 1)
    else
      var r := LastIndex(s[..|s| - 1], b);
      assert s == s[..|s| - 1] + [s[|s| - 1]];
      if r.Some? then
        assert s[r.value + 1..] == s[..|s| - 1][r.value + 1..] + [s[|s| - 1]];
        r
      else r
  }

  /** The parent-directory component `..`. */
  const PARENT: Text := [DOT, DOT]

  /**
   * `Path::extension` is present: the name has a dot after its first byte,
   * and is not the parent-directory component, which names no file.
   */
  predicate HasExtension(name: Text)
  {
    var d := LastIndex(name, DOT);
    name != PARENT && d.Some? && d.value > 0
  }

  /** `Path::file_stem`: the name without its extension and the dot before it. */
  function Stem(name: Text): (r: Text)
    ensures r <= name
    ensures HasExtension(name) ==> 0 < |r| < |name| && name[|r|] == DOT && DOT !in name[|r| + 1..]
    ensures !HasExtension(name) ==> r == name
  {
    if HasExtension(name) then name[..LastIndex(name, DOT).value] else name
  }

  /** `PathBuf::pop`: drop the last component. */
  function Pop(p: Path): (r: Path)
    ensures p != [] ==> r == p[..|p| - 1]
  {
    if p == [] then p else p[..|p| - 1]
  }

  /** `PathBuf::push` of a relative path: its components go after those of `p`. */
  function Push(p: Path, t: Text): (r: Path)
    ensures p <= r && |r| > |p|
  {
    p + Split(t, BACKSLASH)
  }

  /** `PathBuf::set_extension`: the last component's stem, a dot and `ext`. */
  function SetExtension(p: Path, ext: Text): (r: Path)
    ensures |r| == |p| && (p != [] ==> r[..|p| - 1] == p[..|p| - 1])
  {
    if p == [] then p else p[..|p| - 1] + [Stem(p[|p| - 1]) + [DOT] + ext]
  }

  /** `output_path.extension().is_some()`. */
  predicate NamesFile(p: Path)
  {
    p != [] && HasExtension(p[|p| - 1])
  }

  /** Giving a stem the extension `act` yields a name whose stem and extension are those. */
  lemma ActExtension(stem: Text)
    requires stem != []
    ensures HasExtension(stem + [DOT] + ACT)
    ensures Stem(stem + [DOT] + ACT) == stem
  {
    var name := stem + [DOT] + ACT;
    assert DOT !in ACT;
    LastIndexAppend(stem + [DOT], ACT, DOT);
    assert name[..|stem|] == stem;
  }

  /** Bytes other than `b` appended after the last `b` do not move it. */
  lemma {:induction false} LastIndexAppend(s: Text, t: Text, b: byte)
    requires b !in t
    ensures LastIndex(s + t, b) == LastIndex(s, b)
    decreases |t|
  {
    if t == [] {
      assert s + t == s;
    } else {
      var init := t[..|t| - 1];
      assert (s + t)[..|s + t| - 1] == s + init;
      LastIndexAppend(s, init, b);
    }
  }

  // ---------------------------------------------------------------------------
  // The output location

  /** The output base as a directory: a base that names a file stands for its directory. */
  function BaseDirectory(base: Path): (r: Path)
    ensures r <= base && |base| <= |r| + 1
    ensures NamesFile(base) <==> |r| < |base|
  {
    if NamesFile(base) then Pop(base) else base
  }

  /** A base ending in `..` is a directory: it is kept whole, like one without a dot. */
  lemma ParentNamesNoFile(base: Path)
    ensures !NamesFile(base + [PARENT])
    ensures BaseDirectory(base + [PARENT]) == base + [PARENT]
  {
    assert (base + [PARENT])[|base|] == PARENT;
  }

  /** The part of the input's directory recreated under the base, if any. */
  function KeptSuffix(parent: Text): (r: Option<Text>)
    ensures r.Some? ==> EndsWith(parent, r.value)
    ensures r.Some? ==> StartsWith(r.value, MAPDATA_PROP) || StartsWith(r.value, RESOURCE)
  {
    match Find(parent, MAPDATA_PROP)
    case Some(pos) => Some(parent[pos..])
    case None =>
      match Find(parent, RESOURCE)
      case Some(pos) => if StartsWith(parent[pos..], RESOURCE_PROP) then None else Some(parent[pos..])
      case None => None
  }

  function OutputDirectory(base: Path, parent: Text): (r: Path)
    ensures BaseDirectory(base) <= r
  {
    match KeptSuffix(parent)
    case Some(t) => Push(BaseDirectory(base), t)
    case None => BaseDirectory(base)
  }

  function OutputFile(dir: Path, fileName: Text): Path
  {
    SetExtension(Push(dir, fileName), ACT)
  }

  /** The first occurrence of `mapdata\resource\prop` starts the kept part. */
  lemma MapdataKept(parent: Text, pos: nat)
    requires OccursAt(parent, MAPDATA_PROP, pos)
    requires forall j :: 0 <= j < pos ==> !OccursAt(parent, MAPDATA_PROP, j)
    ensures KeptSuffix(parent) == Some(parent[pos..])
  {
    var f := Find(parent, MAPDATA_PROP);
    assert f.Some? && f.value == pos;
  }

  /** Without `mapdata\resource\prop`, the first `resource` starts the kept part, unless it begins `resource\prop`. */
  lemma ResourceKept(parent: Text, pos: nat)
    requires !Contains(parent, MAPDATA_PROP)
    requires OccursAt(parent, RESOURCE, pos)
    requires forall j :: 0 <= j < pos ==> !OccursAt(parent, RESOURCE, j)
    ensures StartsWith(parent[pos..], RESOURCE_PROP) ==> KeptSuffix(parent) == None
    ensures !StartsWith(parent[pos..], RESOURCE_PROP) ==> KeptSuffix(parent) == Some(parent[pos..])
  {
    ContainsFind(parent, MAPDATA_PROP);
    var f := Find(parent, RESOURCE);
    assert f.Some? && f.value == pos;
  }

  /** `mapdata\resource\prop` holds `resource` from its ninth byte on. */
  lemma ResourceInMapdata()
    ensures |MAPDATA_PROP| == 21 && MAPDATA_PROP[8..16] == RESOURCE
  {
  }

  /** A directory without `resource` in it is not recreated. */
  lemma NothingKept(parent: Text)
    requires !Contains(parent, RESOURCE)
    ensures KeptSuffix(parent) == None
  {
    ContainsFind(parent, RESOURCE);
    var m := Find(parent, MAPDATA_PROP);
    if m.Some? {
      var p := m.value;
      ResourceInMapdata();
      SliceOfSlice(parent, p, p + |MAPDATA_PROP|, 8, 16);
      assert OccursAt(parent, RESOURCE, p + 8);
    }
  }

  /**
   * The output file is the output directory and one more component: the
   * input's file name with its extension replaced by `act`.
   */
  lemma OutputFileName(dir: Path, fileName: Text)
    requires BACKSLASH !in fileName && Stem(fileName) != []
    ensures var f := OutputFile(dir, fileName);
      |f| == |dir| + 1 && f[..|dir|] == dir && f[|dir|] == Stem(fileName) + [DOT] + ACT
      && HasExtension(f[|dir|]) && Stem(f[|dir|]) == Stem(fileName)
  {
    assert Split(fileName, BACKSLASH) == [fileName];
    ActExtension(Stem(fileName));
  }
}
