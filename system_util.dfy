/** Validation of the "folder/filename" image paths the back end receives,
    and the storage locations it derives from them (back-end/utils/system_util.py,
    with the directories of back-end/config/config.py). */
module SystemUtil {
  import opened Wrappers

  /** The two `ValueError` messages the Python functions raise. */
  datatype PathError = InvalidImagePath | InvalidFolder

  /** A pathlib `PurePosixPath`: whether it starts at the root, and its components. */
  datatype Path = Path(absolute: bool, parts: seq<string>)

  const Originals: string := "originals"
  const Datasets: string := "datasets"

  /** The folder names `parse_path` accepts. */
  predicate IsFolder(folder: string) {
    folder == Originals || folder == Datasets
  }

  // ---------------------------------------------------------------------------
  // Python string operations

  /** Number of occurrences of `c` in `s`. */
  function Count(s: string, c: char): (n: nat)
    ensures n == 0 <==> c !in s
  {
    if s == [] then 0 else (if s[0] == c then 1 else 0) + Count(s[1..], c)
  }

  /** Python's `s.split(sep)`: the pieces between the occurrences of `sep`. */
  function Split(s: string, sep: char): (pieces: seq<string>)
    ensures |pieces| == Count(s, sep) + 1
    ensures forall i :: 0 <= i < |pieces| ==> sep !in pieces[i]
  {
    if s == [] then [[]]
    else
      var rest := Split(s[1..], sep);
      if s[0] == sep then [[]] + rest
      else [[s[0]] + rest[0]] + rest[1..]
  }

  /** Python's `sep.join(pieces)`. */
  function Join(pieces: seq<string>, sep: char): string {
    if pieces == [] then []
    else if |pieces| == 1 then pieces[0]
    else pieces[0] + [sep] + Join(pieces[1..], sep)
  }

  /** Joining the pieces of a split gives back the string. */
  lemma {:induction false} JoinSplit(s: string, sep: char)
    ensures Join(Split(s, sep), sep) == s
  {
    if s != [] {
      var rest := Split(s[1..], sep);
      JoinSplit(s[1..], sep);
      if s[0] == sep {
        assert Join([[]] + rest, sep) == [] + [sep] + Join(rest, sep);
      } else if |rest| > 1 {
        assert Join(rest, sep) == rest[0] + [sep] + Join(rest[1..], sep);
      }
    }
  }

  /** A string without the separator splits into itself alone. */
  lemma {:induction false} SplitWithoutSep(a: string, sep: char)
    requires sep !in a
    ensures Split(a, sep) == [a]
  {
    if a != [] {
      SplitWithoutSep(a[1..], sep);
      assert [a[0]] + a[1..] == a;
    }
  }

  /** A separator-free head is split off as the first piece. */
  lemma {:induction false} SplitAtFirstSep(a: string, sep: char, b: string)
    requires sep !in a
    ensures Split(a + [sep] + b, sep) == [a] + Split(b, sep)
  {
    var s := a + [sep] + b;
    if a == [] {
      assert s[1..] == b;
    } else {
      assert s[1..] == a[1..] + [sep] + b;
      SplitAtFirstSep(a[1..], sep, b);
      assert [a[0]] + a[1..] == a;
    }
  }

  /** Index of the last occurrence of `c` in `s`, if there is one. */
  function LastIndexOf(s: string, c: char): (r: Option<nat>)
    ensures r.None? <==> c !in s
    ensures r.Some? ==> r.value < |s| && s[r.value] == c && c !in s[r.value + 1..]
  {
    if s == [] then None
    else if s[|s| - 1] == c then Some(|s| - 1)
    else
      var r := LastIndexOf(s[..|s| - 1], c);
      assert s == s[..|s| - 1] + [s[|s| - 1]];
      r
  }

  /** Python's `name.rsplit(".", 1)[0]`: everything before the last dot,
      or the whole name when it has no dot. */
  function StemOf(name: string): (stem: string)
    ensures stem <= name
    ensures '.' !in name ==> stem == name
    ensures '.' in name ==> |stem| < |name| && name[|stem|] == '.' && '.' !in name[|stem| + 1..]
  {
    match LastIndexOf(name, '.')
    case None => name
    case Some(i) => name[..i]
  }

  // ---------------------------------------------------------------------------
  // pathlib

  /** The pieces of a path string that pathlib keeps: empty and "." pieces are dropped. */
  function Kept(pieces: seq<string>): (kept: seq<string>)
    ensures forall i :: 0 <= i < |kept| ==> kept[i] in pieces && kept[i] != "" && kept[i] != "."
  {
    if pieces == [] then []
    else (if pieces[0] == "" || pieces[0] == "." then [] else [pieces[0]]) + Kept(pieces[1..])
  }

  /** `PurePosixPath(s)`. */
  function PathOf(s: string): Path {
    Path(|s| > 0 && s[0] == '/', Kept(Split(s, '/')))
  }

  /** `p / s`: a rooted right operand replaces the left one. */
  function JoinPath(p: Path, s: string): Path {
    var q := PathOf(s);
    if q.absolute then q else Path(p.absolute, p.parts + q.parts)
  }

  /** A single plain component is a relative path of that one component. */
  lemma PathOfPlainName(name: string)
    requires '/' !in name && name != "" && name != "."
    ensures PathOf(name) == Path(false, [name])
  {
    SplitWithoutSep(name, '/');
    assert Kept([name]) == [name] + Kept([]);
  }

  /** Joining a single plain component appends exactly that component. */
  lemma JoinPlainName(p: Path, name: string)
    requires '/' !in name && name != "" && name != "."
    ensures JoinPath(p, name) == Path(p.absolute, p.parts + [name])
  {
    PathOfPlainName(name);
  }

  // ---------------------------------------------------------------------------
  // back-end/config/config.py

  const Storage: string := "storage"
  const StorageDir: Path := Path(false, [Storage])
  const OriginalsDir: Path := Path(false, [Storage, Originals])
  const DatasetsDir: Path := Path(false, [Storage, Datasets])

  /** The storage root is the path pathlib builds from `Path("storage")`. */
  lemma StorageDirIsPathlib()
    ensures StorageDir == PathOf(Storage)
  {
    PathOfPlainName(Storage);
  }

  /** The folder directories are the ones pathlib builds from `storage / "originals"`
      and `storage / "datasets"`. */
  lemma FolderDirIsPathlib(folder: string)
    requires IsFolder(folder)
    ensures JoinPath(StorageDir, folder) == if folder == Originals then OriginalsDir else DatasetsDir
  {
    JoinPlainName(StorageDir, folder);
  }

  // ---------------------------------------------------------------------------
  // back-end/utils/system_util.py

  /** `parse_path`: split "folder/filename" and check the folder. */
  function ParsePath(imagePath: string): (r: Result<(string, string), PathError>)
    ensures r == Failure(InvalidImagePath) <==> Count(imagePath, '/') != 1
    ensures r == Failure(InvalidFolder) <==> Count(imagePath, '/') == 1 && !IsFolder(Split(imagePath, '/')[0])
    ensures r.Success? ==> IsFolder(r.value.0) && '/' !in r.value.1
    ensures r.Success? ==> r.value.0 + "/" + r.value.1 == imagePath
  {
    var parts := Split(imagePath, '/');
    if |parts| != 2 then Failure(InvalidImagePath)
    else if !IsFolder(parts[0]) then Failure(InvalidFolder)
    else
      JoinSplit(imagePath, '/');
      assert Join(parts, '/') == parts[0] + "/" + parts[1];
      Success((parts[0], parts[1]))
  }

  /** Every accepted folder with a slash-free filename is parsed back into its two parts. */
  lemma ParsePathOfJoined(folder: string, filename: string)
    requires IsFolder(folder) && '/' !in filename
    ensures ParsePath(folder + "/" + filename) == Success((folder, filename))
  {
    SplitAtFirstSep(folder, '/', filename);
    SplitWithoutSep(filename, '/');
  }

  /** `get_image_path`: the storage directory of the folder joined with the filename. */
  function ImagePath(folder: string, filename: string): (r: Result<Path, PathError>)
    ensures r.Failure? <==> !IsFolder(folder)
    ensures r.Failure? ==> r.error == InvalidFolder
  {
    if folder == Originals then Success(JoinPath(OriginalsDir, filename))
    else if folder == Datasets then Success(JoinPath(DatasetsDir, filename))
    else Failure(InvalidFolder)
  }

  /** A plain filename lands directly inside storage/<folder>. */
  lemma ImagePathInFolder(folder: string, filename: string)
    requires IsFolder(folder) && '/' !in filename && filename != "" && filename != "."
    ensures ImagePath(folder, filename) == Success(Path(false, ["storage", folder, filename]))
  {
    if folder == Originals {
      JoinPlainName(OriginalsDir, filename);
      assert OriginalsDir.parts + [filename] == ["storage", folder, filename];
    } else {
      JoinPlainName(DatasetsDir, filename);
      assert DatasetsDir.parts + [filename] == ["storage", folder, filename];
    }
  }

  /** `get_txt_path`: the image's name with its last extension replaced by ".txt". */
  function TxtPath(folder: string, imageFilename: string): (r: Result<Path, PathError>)
    ensures r.Failure? <==> ImagePath(folder, imageFilename).Failure?
  {
    ImagePath(folder, StemOf(imageFilename) + ".txt")
  }

  /** For a slash-free image name, the tag file sits in the same directory as the image. */
  lemma TxtPathBesideImage(folder: string, imageFilename: string)
    requires IsFolder(folder) && '/' !in imageFilename
    ensures TxtPath(folder, imageFilename) == Success(Path(false, ["storage", folder, StemOf(imageFilename) + ".txt"]))
    ensures imageFilename != "" && imageFilename != "." ==>
      ImagePath(folder, imageFilename).value.parts[..2] == TxtPath(folder, imageFilename).value.parts[..2]
  {
    var txt := StemOf(imageFilename) + ".txt";
    assert '/' !in txt by {
      assert forall i :: 0 <= i < |StemOf(imageFilename)| ==> txt[i] == imageFilename[i];
    }
    assert txt != "" && txt != "." by {
      assert |txt| >= 4;
    }
    ImagePathInFolder(folder, txt);
    if imageFilename != "" && imageFilename != "." {
      ImagePathInFolder(folder, imageFilename);
    }
  }

  /** The tag file the back end writes for an accepted image path. */
  lemma TxtPathOfParsed(imagePath: string)
    requires ParsePath(imagePath).Success?
    ensures var (folder, filename) := ParsePath(imagePath).value;
      TxtPath(folder, filename) == Success(Path(false, ["storage", folder, StemOf(filename) + ".txt"]))
  {
    var (folder, filename) := ParsePath(imagePath).value;
    TxtPathBesideImage(folder, filename);
  }

  /** Only the last extension is replaced: "a.b.png" has the tag file "a.b.txt". */
  lemma TxtNameExample()
    ensures StemOf("a.b.png") + ".txt" == "a.b.txt"
    ensures StemOf("photo") + ".txt" == "photo.txt"
  {
    assert LastIndexOf("a.b.png", '.') == Some(3) by {
      assert "a.b.png"[..6] == "a.b.pn";
      assert "a.b.pn"[..5] == "a.b.p";
      assert "a.b.p"[..4] == "a.b.";
    }
    assert "a.b.png"[..3] == "a.b";
  }
}
