/** The images a device asks for over Sahara, by id, and how their files are named. */
module Images {
  import opened Bytes
  import opened Options

  /** A loaded image; it may have no name. */
  datatype Image = Image(name: Option<bytes>, content: bytes)

  /** The image table: `IMAGE_SLOTS` slots. */
  type ImageTable = seq<Option<Image>>

  const IMAGE_SLOTS := 128
  const SLASH: byte := 47

  function NoImages(): (t: ImageTable)
    ensures |t| == IMAGE_SLOTS && forall i :: 0 <= i < IMAGE_SLOTS ==> t[i] == None
  {
    seq(IMAGE_SLOTS, _ => None)
  }

  /** The text without the slashes at its end. */
  function TrimSlashes(path: bytes): (r: bytes)
    ensures r <= path && (|r| > 0 ==> r[|r| - 1] != SLASH)
    ensures forall i :: |r| <= i < |path| ==> path[i] == SLASH
  {
    if |path| > 0 && path[|path| - 1] == SLASH then TrimSlashes(path[..|path| - 1]) else path
  }

  /** What follows the last slash. */
  function AfterSlash(path: bytes): (r: bytes)
    ensures SLASH !in r && |r| <= |path| && path[|path| - |r|..] == r
    ensures |r| < |path| ==> path[|path| - |r| - 1] == SLASH
  {
    if |path| == 0 || path[|path| - 1] == SLASH then []
    else AfterSlash(path[..|path| - 1]) + [path[|path| - 1]]
  }

  /** basename() of POSIX. */
  function Basename(path: bytes): (r: bytes)
    ensures |r| > 0
  {
    if |path| == 0 then [46]
    else
      var trimmed := TrimSlashes(path);
      if |trimmed| == 0 then [SLASH] else AfterSlash(trimmed)
  }

  /** A path as a directory, a name without slashes, and slashes behind it. */
  ghost predicate NamedIn(path: bytes, dir: bytes, name: bytes, slashes: bytes) {
    && path == dir + name + slashes && |name| > 0 && 47 !in name
    && (dir == [] || dir[|dir| - 1] == 47)
    && forall i :: 0 <= i < |slashes| ==> slashes[i] == 47
  }

  /** The name is what is behind the directory and in front of trailing slashes, and nothing else. */
  lemma BasenameExactly(path: bytes, name: bytes)
    requires |path| > 0 && name != [47]
    ensures Basename(path) == name <==> exists dir, slashes :: NamedIn(path, dir, name, slashes)
    ensures Basename(path) == [47] <==> forall i :: 0 <= i < |path| ==> path[i] == 47
  {
    hide TrimSlashes, AfterSlash;
    var t := TrimSlashes(path);
    if t == [] {
      forall dir, slashes
        ensures !NamedIn(path, dir, name, slashes)
      {
        if |name| > 0 && path == dir + name + slashes { assert path[|dir|] == name[0]; }
      }
    } else {
      var b := AfterSlash(t);
      assert path[|t| - 1] == t[|t| - 1] != SLASH;
      assert b != [];
      assert NamedIn(path, t[..|t| - |b|], b, path[|t|..]);
      forall dir, slashes | NamedIn(path, dir, name, slashes) ensures b == name {
        OneName(path, t[..|t| - |b|], b, path[|t|..], dir, name, slashes);
      }
    }
  }

  lemma OneName(path: bytes, dir: bytes, name: bytes, slashes: bytes, dir': bytes, name': bytes, slashes': bytes)
    requires NamedIn(path, dir, name, slashes) && NamedIn(path, dir', name', slashes')
    ensures name == name'
  {
    LastOfName(path, dir, name, slashes, dir', name', slashes');
    LastOfName(path, dir', name', slashes', dir, name, slashes);
    FirstOfName(path, dir, name, slashes, dir', name', slashes');
    FirstOfName(path, dir', name', slashes', dir, name, slashes);
    assert path[|dir|..|dir| + |name|] == name;
    assert path[|dir'|..|dir'| + |name'|] == name';
  }

  lemma LastOfName(path: bytes, dir: bytes, name: bytes, slashes: bytes, dir': bytes, name': bytes, slashes': bytes)
    requires NamedIn(path, dir, name, slashes) && NamedIn(path, dir', name', slashes')
    ensures |dir| + |name| <= |dir'| + |name'|
  {
    var last, end := |dir| + |name| - 1, |dir'| + |name'|;
    assert path[last] == name[|name| - 1] && name[|name| - 1] in name;
    assert forall k :: end <= k < |path| ==> path[k] == slashes'[k - end] == SLASH;
  }

  lemma FirstOfName(path: bytes, dir: bytes, name: bytes, slashes: bytes, dir': bytes, name': bytes, slashes': bytes)
    requires NamedIn(path, dir, name, slashes) && NamedIn(path, dir', name', slashes')
    requires |dir| + |name| == |dir'| + |name'|
    ensures |dir| <= |dir'|
  {
    assert dir != [] ==> path[|dir| - 1] == dir[|dir| - 1] == SLASH;
    forall k | |dir'| <= k < |dir'| + |name'|
      ensures path[k] != SLASH
    {
      assert path[k] == name'[k - |dir'|] && name'[k - |dir'|] in name';
    }
  }

  lemma BasenameIsString(path: bytes)
    requires NoNul(path)
    ensures NoNul(Basename(path))
  {
    hide AfterSlash, TrimSlashes;
    var t := TrimSlashes(path);
    var a := AfterSlash(t);
    assert a == path[|t| - |a|..|t|];
    assert forall i :: 0 <= i < |a| ==> a[i] == path[|t| - |a| + i];
    assert NoNul(a) && NoNul([46]) && NoNul([SLASH]);
  }

  /** Names are C strings. */
  predicate StringNames(images: seq<Option<Image>>) {
    forall i :: 0 <= i < |images| && images[i].Some? && images[i].value.name.Some? ==> NoNul(images[i].value.name.value)
  }
}
