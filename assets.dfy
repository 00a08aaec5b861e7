/**
 * Asset resolution (src/utils/assets.ts): finding an image among the modules
 * a glob import produced, and turning a CMS path such as "/assets/x.jpg" into
 * the image module stored under "/src/assets/x.jpg".
 *
 * JavaScript values are modelled by `Value`, a tagged union of the kinds the
 * two functions distinguish. A glob import is given as its entries in the
 * order a `for...in` loop visits them.
 */
module Assets {

  /** A JavaScript value, as far as these functions look at it. An object is known by its identity and its property names. */
  datatype Value =
    | Undefined
    | Null
    | Bool(b: bool)
    | Num(n: int)
    | Str(s: string)
    | Obj(id: nat, keys: set<string>)

  /** JavaScript truthiness: `false`, `0`, `""`, `null` and `undefined` are falsy. */
  predicate Truthy(v: Value) {
    match v
    case Undefined => false
    case Null => false
    case Bool(b) => b
    case Num(n) => n != 0
    case Str(s) => s != ""
    case Obj(_, _) => true
  }

  /** A module a glob import loaded: only its default export is used. */
  datatype Module = Module(default: Value)

  /** One key of a glob import's record with the module loaded from that path. */
  datatype GlobEntry = GlobEntry(path: string, loaded: Module)

  // ---------------------------------------------------------------------
  // String operations
  // ---------------------------------------------------------------------

  /** `hay.includes(needle)`: `needle` occurs in `hay` at some position. */
  predicate Includes(hay: string, needle: string) {
    |needle| <= |hay| && (needle <= hay || Includes(hay[1..], needle))
  }

  /** `needle` is the slice of `hay` that starts at `i`. */
  predicate OccursAt(hay: string, needle: string, i: int) {
    0 <= i <= |hay| - |needle| && hay[i..i + |needle|] == needle
  }

  /** `Includes` holds exactly when `needle` occurs at some position of `hay`. */
  lemma {:induction false} IncludesIff(hay: string, needle: string)
    ensures Includes(hay, needle) <==> exists i :: OccursAt(hay, needle, i)
  {
    if |needle| <= |hay| {
      if needle <= hay {
        assert OccursAt(hay, needle, 0);
      } else {
        IncludesIff(hay[1..], needle);
        if Includes(hay[1..], needle) {
          var i :| OccursAt(hay[1..], needle, i);
          assert hay[1..][i..i + |needle|] == hay[i + 1..i + 1 + |needle|];
          assert OccursAt(hay, needle, i + 1);
        }
        if exists i :: OccursAt(hay, needle, i) {
          var i :| OccursAt(hay, needle, i);
          assert i != 0;
          assert hay[1..][i - 1..i - 1 + |needle|] == hay[i..i + |needle|];
          assert OccursAt(hay[1..], needle, i - 1);
        }
      }
    }
  }

  /** The empty string occurs in every string. */
  lemma IncludesEmpty(hay: string)
    ensures Includes(hay, "")
  {
    assert [] <= hay;
  }

  /**
   * `s.replace(pattern, replacement)` with a string pattern: the first
   * occurrence of `pattern` is replaced, and `s` is returned unchanged when
   * there is none.
   */
  function ReplaceFirst(s: string, pattern: string, replacement: string): (r: string)
    ensures pattern <= s ==> r == replacement + s[|pattern|..]
    ensures !Includes(s, pattern) ==> r == s
    decreases |s|
  {
    if pattern <= s then replacement + s[|pattern|..]
    else if |s| < |pattern| then s
    else [s[0]] + ReplaceFirst(s[1..], pattern, replacement)
  }

  // ---------------------------------------------------------------------
  // getImage
  // ---------------------------------------------------------------------

  /** The default export of the first entry whose path contains `image_name`, `null` when there is none. */
  function ImageOf(glob: seq<GlobEntry>, image_name: string): Value {
    if glob == [] then Null
    else if Includes(glob[0].path, image_name) then glob[0].loaded.default
    else ImageOf(glob[1..], image_name)
  }

  /**
   * Scans the glob import's entries in order and returns the default export
   * of the first one whose path contains `image_name`. The folder name is
   * accepted and never consulted.
   */
  method GetImage(folder_name: string, image_name: string, glob: seq<GlobEntry>) returns (image: Value)
    ensures image == ImageOf(glob, image_name)
  {
    for i := 0 to |glob|
      invariant ImageOf(glob[i..], image_name) == ImageOf(glob, image_name)
    {
      assert glob[i..][1..] == glob[i + 1..];
      if Includes(glob[i].path, image_name) {
        return glob[i].loaded.default;
      }
    }
    return Null;
  }

  /** The result is the default export of the entry that matches first: it matches and no earlier entry does. */
  lemma {:induction false} ImageOfFirstMatch(glob: seq<GlobEntry>, image_name: string, i: nat)
    requires i < |glob| && Includes(glob[i].path, image_name)
    requires forall k :: 0 <= k < i ==> !Includes(glob[k].path, image_name)
    ensures ImageOf(glob, image_name) == glob[i].loaded.default
  {
    if i > 0 {
      ImageOfFirstMatch(glob[1..], image_name, i - 1);
    }
  }

  /** With no entry matching, the result is `null`. */
  lemma {:induction false} ImageOfNoMatch(glob: seq<GlobEntry>, image_name: string)
    requires forall k :: 0 <= k < |glob| ==> !Includes(glob[k].path, image_name)
    ensures ImageOf(glob, image_name) == Null
  {
    if glob != [] {
      ImageOfNoMatch(glob[1..], image_name);
    }
  }

  /** A result other than `null` is the default export of some entry whose path contains the name. */
  lemma {:induction false} ImageOfFound(glob: seq<GlobEntry>, image_name: string)
    requires ImageOf(glob, image_name) != Null
    ensures exists k ::
              && 0 <= k < |glob|
              && Includes(glob[k].path, image_name)
              && glob[k].loaded.default == ImageOf(glob, image_name)
  {
    if !Includes(glob[0].path, image_name) {
      ImageOfFound(glob[1..], image_name);
      var k :| 0 <= k < |glob[1..]| && Includes(glob[1..][k].path, image_name)
        && glob[1..][k].loaded.default == ImageOf(glob[1..], image_name);
      assert glob[k + 1] == glob[1..][k];
    }
  }

  /** When no module's default export is `null`, the result is `null` exactly when no path contains the name. */
  lemma ImageOfNullIff(glob: seq<GlobEntry>, image_name: string)
    requires forall k :: 0 <= k < |glob| ==> glob[k].loaded.default != Null
    ensures ImageOf(glob, image_name) == Null <==>
      forall k :: 0 <= k < |glob| ==> !Includes(glob[k].path, image_name)
  {
    if ImageOf(glob, image_name) == Null {
      ImageOfNullNoMatch(glob, image_name);
    } else {
      ImageOfFound(glob, image_name);
    }
  }

  /** A `null` result over modules with non-null default exports means no path contains the name. */
  lemma {:induction false} ImageOfNullNoMatch(glob: seq<GlobEntry>, image_name: string)
    requires forall k :: 0 <= k < |glob| ==> glob[k].loaded.default != Null
    requires ImageOf(glob, image_name) == Null
    ensures forall k :: 0 <= k < |glob| ==> !Includes(glob[k].path, image_name)
  {
    if glob != [] {
      assert !Includes(glob[0].path, image_name);
      ImageOfNullNoMatch(glob[1..], image_name);
      forall k | 0 < k < |glob| ensures !Includes(glob[k].path, image_name) {
        assert glob[k] == glob[1..][k - 1];
      }
    }
  }

  /** An empty name is contained in every path, so a non-empty glob yields its first entry's default export. */
  lemma ImageOfEmptyName(glob: seq<GlobEntry>)
    requires glob != []
    ensures ImageOf(glob, "") == glob[0].loaded.default
  {
    IncludesEmpty(glob[0].path);
  }

  // ---------------------------------------------------------------------
  // resolveImagePath
  // ---------------------------------------------------------------------

  /** The prefix of the path the CMS stores for an uploaded image. */
  const CmsPrefix: string := "/assets/"

  /** The directory the eager glob import of the images reads. */
  const AssetsDir: string := "/src/assets/"

  /** The default export stored under `key`, or `null` when the key is absent or the export is falsy. */
  function DefaultOrNull(images: map<string, Module>, key: string): (r: Value)
    ensures r == Null || Truthy(r)
    ensures r != Null ==> key in images && r == images[key].default
    ensures key in images && Truthy(images[key].default) ==> r == images[key].default
  {
    if key in images && Truthy(images[key].default) then images[key].default else Null
  }

  /**
   * An imported image object (an object with a `src` property) is returned
   * as it is; a CMS path starting with "/assets/" is looked up in the eager
   * glob `images` under "/src/assets/" and the rest of the path; every other
   * value is returned unchanged.
   */
  function ResolveImagePath(imagePath: Value, images: map<string, Module>): (r: Value)
    ensures imagePath.Obj? ==> r == imagePath
    ensures imagePath.Str? && CmsPrefix <= imagePath.s ==> r == Null || Truthy(r)
    ensures !imagePath.Obj? && !(imagePath.Str? && CmsPrefix <= imagePath.s) ==> r == imagePath
  {
    if imagePath.Obj? && "src" in imagePath.keys then imagePath
    else if imagePath.Str? && CmsPrefix <= imagePath.s then
      var imageName := ReplaceFirst(imagePath.s, CmsPrefix, "");
      DefaultOrNull(images, AssetsDir + imageName)
    else imagePath
  }

  /** A CMS path "/assets/<name>" resolves to the default export stored under "/src/assets/<name>". */
  lemma ResolveCmsPath(name: string, images: map<string, Module>)
    ensures ResolveImagePath(Str(CmsPrefix + name), images) == DefaultOrNull(images, AssetsDir + name)
  {
    var s := CmsPrefix + name;
    assert CmsPrefix <= s;
    assert s[|CmsPrefix|..] == name;
    assert ReplaceFirst(s, CmsPrefix, "") == "" + name == name;
  }

  /** A string without the "/assets/" prefix is no CMS path and comes back unchanged. */
  lemma ResolveKeepsOtherStrings(s: string, images: map<string, Module>)
    requires !(CmsPrefix <= s)
    ensures ResolveImagePath(Str(s), images) == Str(s)
  {
  }

  /** Resolving twice is resolving once, when no stored default export is itself a CMS path. */
  lemma ResolveIdempotent(imagePath: Value, images: map<string, Module>)
    requires forall key :: key in images ==> !(images[key].default.Str? && CmsPrefix <= images[key].default.s)
    ensures ResolveImagePath(ResolveImagePath(imagePath, images), images) == ResolveImagePath(imagePath, images)
  {
  }
}
